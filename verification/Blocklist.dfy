/** The blocklist generator's deduplication, and what the matcher does with its output. */
module Blocklist {
  import opened Common
  import opened DomainRules
  import opened PatternMatching

  // ------------------------------------------------------------- labels as a list

  function FirstDot(s: string): (r: nat)
    ensures r <= |s| && (r < |s| ==> s[r] == '.') && forall i :: 0 <= i < r ==> s[i] != '.'
  {
    if s == "" || s[0] == '.' then 0 else FirstDot(s[1..]) + 1
  }

  function Split(s: string): (parts: seq<string>)
    ensures parts != []
    decreases |s|
  {
    var dot := FirstDot(s);
    if dot == |s| then [s] else [s[..dot]] + Split(s[dot + 1..])
  }

  function Join(parts: seq<string>): string {
    if parts == [] then ""
    else if |parts| == 1 then parts[0]
    else parts[0] + "." + Join(parts[1..])
  }

  lemma JoinMore(part: string, parts: seq<string>)
    requires parts != []
    ensures Join([part] + parts) == part + "." + Join(parts)
  {
    assert ([part] + parts)[1..] == parts;
  }

  lemma {:induction false} JoinUndoesSplit(s: string)
    ensures Join(Split(s)) == s
    decreases |s|
  {
    var dot := FirstDot(s);
    if dot == |s| {
    } else {
      var rest := s[dot + 1..];
      JoinUndoesSplit(rest);
      JoinMore(s[..dot], Split(rest));
      assert s == s[..dot] + "." + rest;
    }
  }

  // ------------------------------------------------------------- ancestors

  /** `m` is a proper ancestor of `n`. */
  predicate Above(m: string, n: string) {
    m != n && LabelSuffix(m, n)
  }

  lemma SuffixLength(m: string, n: string)
    requires LabelSuffix(m, n)
    ensures |m| <= |n| && (|m| == |n| ==> m == n) && n[|n| - |m|..] == m
  {
  }

  lemma SuffixTransitive(a: string, b: string, c: string)
    requires LabelSuffix(a, b) && LabelSuffix(b, c)
    ensures LabelSuffix(a, c)
  {
  }

  /** Below its first dot, a name ends the way it does as a whole. */
  lemma TailsAgree(m: string, n: string, from: nat)
    requires from <= |n| && |m| < |n| - from
    ensures LabelSuffix(m, n) <==> LabelSuffix(m, n[from..])
  {
  }

  /** The ancestors of a name are the rest after its first dot, and the ancestors of that. */
  lemma AncestorsOf(m: string, n: string)
    ensures var dot := FirstDot(n);
      Above(m, n) <==> dot < |n| && (m == n[dot + 1..] || Above(m, n[dot + 1..]))
  {
    var dot := FirstDot(n);
    if dot < |n| {
      var rest := n[dot + 1..];
      if |m| < |rest| {
        TailsAgree(m, n, dot + 1);
      } else if |m| == |rest| {
        assert n[|n| - |m|..] == rest;
      }
    }
  }

  /** A proper ancestor is in the set; the empty name counts as an ancestor of everything. */
  ghost predicate HasAncestor(names: set<string>, name: string) {
    "" in names || exists m :: m in names && Above(m, name)
  }

  method HasSuffix(names: set<string>, name: string) returns (r: bool)
    ensures r <==> HasAncestor(names, name)
  {
    var parts := Split(name);
    ghost var rest := name;
    while parts != []
      invariant parts != [] ==> parts == Split(rest)
      invariant parts != [] ==> forall m :: m in names ==> (Above(m, name) <==> Above(m, rest))
      invariant parts == [] ==> "" !in names && forall m :: m in names ==> !Above(m, name)
      decreases |parts|
    {
      ghost var dot := FirstDot(rest);
      forall m | m in names
        ensures Above(m, rest) <==> dot < |rest| && (m == rest[dot + 1..] || Above(m, rest[dot + 1..]))
      {
        AncestorsOf(m, rest);
      }
      parts := parts[1..];
      if dot < |rest| {
        rest := rest[dot + 1..];
        assert parts == Split(rest);
        JoinUndoesSplit(rest);
      }
      if Join(parts) in names {
        return true;
      }
    }
    return false;
  }

  // ------------------------------------------------------------- the emit loop

  /** The glob patterns among the listed names, and the shell-style match used for them. */
  datatype GlobList = GlobList(patterns: set<string>, matches: (string, string) -> bool)

  ghost predicate Covered(globs: GlobList, name: string) {
    name !in globs.patterns && exists g :: g in globs.patterns && globs.matches(name, g)
  }

  method CoveredByGlob(globs: GlobList, name: string) returns (r: bool)
    ensures r <==> Covered(globs, name)
  {
    if name in globs.patterns {
      return false;
    }
    var todo := globs.patterns;
    while todo != {}
      invariant todo <= globs.patterns && forall g :: g in globs.patterns - todo ==> !globs.matches(name, g)
      decreases |todo|
    {
      var glob :| glob in todo;
      if globs.matches(name, glob) {
        return true;
      }
      todo := todo - {glob};
    }
    return false;
  }

  ghost predicate Allowed(allowed: set<string>, name: string) {
    name in allowed || HasAncestor(allowed, name)
  }

  /** All that is listed, the glob patterns among it, and what is allowed. */
  datatype Lists = Lists(all: set<string>, globs: GlobList, allowed: set<string>)

  /** A name that stays: no glob covers it, no ancestor of it is listed, and it is not allowed. */
  ghost predicate Kept(lists: Lists, name: string) {
    !Covered(lists.globs, name) && !HasAncestor(lists.all, name) && !Allowed(lists.allowed, name)
  }

  ghost predicate NoDuplicates(names: seq<string>) {
    forall n :: multiset(names)[n] <= 1
  }

  ghost function NamesOf(names: seq<string>): set<string> {
    set n | n in names
  }

  /** The key by which a list is sorted: the labels, the last one first. */
  function SortKey(name: string): string {
    Join(ReversedLabels(Split(name)))
  }

  function ReversedLabels(parts: seq<string>): seq<string> {
    if parts == [] then [] else ReversedLabels(parts[1..]) + [parts[0]]
  }

  /** The order of strings, character by character. */
  predicate NotAfter(a: string, b: string) {
    a == "" || (b != "" && (a[0] < b[0] || (a[0] == b[0] && NotAfter(a[1..], b[1..]))))
  }

  lemma {:induction false} NotAfterIsTotal(a: string, b: string, c: string)
    ensures NotAfter(a, b) || NotAfter(b, a)
    ensures NotAfter(a, b) && NotAfter(b, c) ==> NotAfter(a, c)
  {
    if a == "" || b == "" || c == "" {
      if a != "" && b != "" && a[0] == b[0] {
        NotAfterIsTotal(a[1..], b[1..], "");
      }
    } else {
      NotAfterIsTotal(a[1..], b[1..], c[1..]);
    }
  }

  /** Strings are compared where they first differ, and one that starts another comes first. */
  lemma {:induction false} FirstDifferenceDecides(common: string, x: char, y: char, a: string, b: string)
    requires x < y
    ensures NotAfter(common + [x] + a, common + [y] + b) && !NotAfter(common + [y] + b, common + [x] + a)
    ensures NotAfter(common, common + a)
  {
    if common == "" {
    } else {
      FirstDifferenceDecides(common[1..], x, y, a, b);
      assert (common + [x] + a)[1..] == common[1..] + [x] + a && (common + [y] + b)[1..] == common[1..] + [y] + b;
      assert (common + a)[1..] == common[1..] + a;
    }
  }

  lemma {:induction false} SplitAtDot(a: string, b: string)
    requires forall i :: 0 <= i < |a| ==> a[i] != '.'
    ensures Split(a + "." + b) == [a] + Split(b) && Split(a) == [a]
  {
    var s := a + "." + b;
    assert s[|a|] == '.' && s[|a| + 1..] == b && s[..|a|] == a;
    assert FirstDot(s) == |a| && FirstDot(a) == |a|;
  }

  lemma {:induction false} JoinLast(parts: seq<string>, last: string)
    requires parts != []
    ensures Join(parts + [last]) == Join(parts) + "." + last
  {
    if |parts| == 1 {
      assert (parts + [last])[1..] == [last];
    } else {
      assert (parts + [last])[1..] == parts[1..] + [last];
      JoinLast(parts[1..], last);
    }
  }

  /** The sorting key has the labels in reverse order: a name's first label comes last. */
  lemma SortKeyIsReversed(part: string, rest: string)
    requires forall i :: 0 <= i < |part| ==> part[i] != '.'
    ensures SortKey(part) == part && SortKey(part + "." + rest) == SortKey(rest) + "." + part
  {
    SplitAtDot(part, rest);
    assert ([part] + Split(rest))[1..] == Split(rest);
    assert ReversedLabels([part] + Split(rest)) == ReversedLabels(Split(rest)) + [part];
    assert [part][1..] == [] && ReversedLabels([part]) == [part];
    JoinLast(ReversedLabels(Split(rest)), part);
  }

  predicate Before(a: string, b: string) {
    NotAfter(SortKey(a), SortKey(b))
  }

  /** The relation compares any two strings, and is transitive. */
  ghost predicate Compares(before: (string, string) -> bool) {
    && (forall a, b :: before(a, b) || before(b, a))
    && (forall a, b, c :: before(a, b) && before(b, c) ==> before(a, c))
  }

  lemma BeforeCompares()
    ensures Compares(Before)
  {
    forall a, b
      ensures Before(a, b) || Before(b, a)
    {
      NotAfterIsTotal(SortKey(a), SortKey(b), "");
    }
    forall a, b, c | Before(a, b) && Before(b, c)
      ensures Before(a, c)
    {
      NotAfterIsTotal(SortKey(a), SortKey(b), SortKey(c));
    }
  }

  ghost predicate OrderedBy(names: seq<string>, before: (string, string) -> bool) {
    forall i, j :: 0 <= i < j < |names| ==> before(names[i], names[j])
  }

  ghost predicate InOrder(names: seq<string>) {
    OrderedBy(names, Before)
  }

  method SortNames(names: seq<string>) returns (sorted: seq<string>)
    ensures InOrder(sorted) && multiset(sorted) == multiset(names)
  {
    BeforeCompares();
    sorted := SortBy(names, Before);
  }

  method SortBy(names: seq<string>, before: (string, string) -> bool) returns (sorted: seq<string>)
    requires Compares(before)
    ensures OrderedBy(sorted, before) && multiset(sorted) == multiset(names)
  {
    sorted := [];
    for i := 0 to |names|
      invariant OrderedBy(sorted, before) && multiset(sorted) == multiset(names[..i])
    {
      sorted := InsertBy(sorted, names[i], before);
      assert names[..i + 1] == names[..i] + [names[i]];
    }
    assert names[..|names|] == names;
  }

  method InsertBy(sorted: seq<string>, name: string, before: (string, string) -> bool) returns (r: seq<string>)
    requires OrderedBy(sorted, before) && Compares(before)
    ensures OrderedBy(r, before) && multiset(r) == multiset(sorted) + multiset{name}
  {
    var i := |sorted|;
    while i > 0 && !before(sorted[i - 1], name)
      invariant 0 <= i <= |sorted| && forall j :: i <= j < |sorted| ==> before(name, sorted[j])
    {
      i := i - 1;
    }
    forall j | 0 <= j < i
      ensures before(sorted[j], name)
    {
      assert j < i - 1 ==> before(sorted[j], sorted[i - 1]);
    }
    InsertedOnce(sorted, name, i);
    r := sorted[..i] + [name] + sorted[i..];
  }

  lemma InsertedOnce(sorted: seq<string>, name: string, i: nat)
    requires i <= |sorted|
    ensures multiset(sorted[..i] + [name] + sorted[i..]) == multiset(sorted) + multiset{name}
  {
    assert sorted == sorted[..i] + sorted[i..];
  }

  /** One list, in any order: its names that stay and are not there yet. */
  method EmitList(lists: Lists, names: seq<string>, uniqueBefore: set<string>)
    returns (list: seq<string>, unique: set<string>)
    ensures InOrder(list) && NoDuplicates(list)
    ensures forall n :: n in list <==> n in names && n !in uniqueBefore && Kept(lists, n)
    ensures unique == uniqueBefore + NamesOf(list)
  {
    list, unique := [], uniqueBefore;
    for i := 0 to |names|
      invariant NoDuplicates(list) && unique == uniqueBefore + NamesOf(list)
      invariant forall n :: n in list <==> n in names[..i] && n !in uniqueBefore && Kept(lists, n)
    {
      var name := names[i];
      assert names[..i + 1] == names[..i] + [name];
      var covered := CoveredByGlob(lists.globs, name);
      if covered {
        continue;
      }
      var duplicate := HasSuffix(lists.all, name);
      if duplicate || name in unique {
        continue;
      }
      var permitted := HasSuffix(lists.allowed, name);
      if permitted || name in lists.allowed {
        continue;
      }
      list := list + [name];
      unique := unique + {name};
    }
    assert names[..|names|] == names;
    var sorted := SortNames(list);
    SameMembers(sorted, list);
    list := sorted;
  }

  lemma SameMembers(a: seq<string>, b: seq<string>)
    requires multiset(a) == multiset(b)
    ensures (forall n :: n in a <==> n in b) && NamesOf(a) == NamesOf(b)
  {
    assert forall n :: n in a <==> n in multiset(a);
    assert forall n :: n in b <==> n in multiset(b);
  }

  ghost function AllNames(lists: seq<seq<string>>): set<string> {
    set i, j | 0 <= i < |lists| && 0 <= j < |lists[i]| :: lists[i][j]
  }

  /** The loop over the lists. */
  method Emit(lists: Lists, names: seq<seq<string>>) returns (output: seq<string>)
    requires lists.all == AllNames(names)
    ensures NoDuplicates(output) && IsOutput(lists, output)
  {
    output := [];
    var unique := {};
    for i := 0 to |names|
      invariant NoDuplicates(output) && unique == NamesOf(output)
      invariant forall n :: n in output <==> n in AllNames(names[..i]) && Kept(lists, n)
    {
      var list;
      ghost var before := output;
      list, unique := EmitList(lists, names[i], unique);
      output := output + list;
      AllNamesAppend(names, i);
      assert forall n :: n in output <==> n in before || n in list;
      JoinedOnce(before, list);
    }
    assert names[..|names|] == names;
  }

  lemma JoinedOnce(a: seq<string>, b: seq<string>)
    requires NoDuplicates(a) && NoDuplicates(b) && forall n :: n in b ==> n !in a
    ensures NoDuplicates(a + b) && NamesOf(a + b) == NamesOf(a) + NamesOf(b)
  {
    forall n
      ensures multiset(a + b)[n] <= 1
    {
      assert multiset(a + b) == multiset(a) + multiset(b);
      assert n in b <==> n in multiset(b);
      assert n in a <==> n in multiset(a);
    }
  }

  lemma AllNamesAppend(lists: seq<seq<string>>, i: nat)
    requires i < |lists|
    ensures AllNames(lists[..i + 1]) == AllNames(lists[..i]) + NamesOf(lists[i])
  {
  }

  // ------------------------------------------------------------- what the output means

  /** What the emit loop promises of its output. */
  ghost predicate IsOutput(lists: Lists, output: seq<string>) {
    forall n :: n in output <==> n in lists.all && Kept(lists, n)
  }

  /** `n` ends with a dot and `m`. */
  ghost predicate IsUnder(n: string, m: string) {
    exists front :: n == front + "." + m
  }

  lemma AboveIffUnder(m: string, n: string)
    ensures Above(m, n) <==> IsUnder(n, m)
  {
    if Above(m, n) {
      var at := |n| - |m| - 1;
      assert n == n[..at] + "." + m;
    }
    if front :| n == front + "." + m {
      assert n[|n| - |m|..] == m && n[|front|] == '.';
    }
  }

  /**
    A listed name is emitted exactly when no listed glob but itself matches it
    or it is a glob, it is under no listed name, and it neither is nor is under an
    allowed one; the empty name, listed or allowed, stands above all.
   */
  lemma EmittedIff(lists: Lists, output: seq<string>, n: string)
    requires IsOutput(lists, output)
    ensures n in output <==>
      && n in lists.all
      && (n in lists.globs.patterns || forall g :: g in lists.globs.patterns ==> !lists.globs.matches(n, g))
      && "" !in lists.all && (forall m :: m in lists.all ==> !IsUnder(n, m))
      && "" !in lists.allowed && n !in lists.allowed && (forall m :: m in lists.allowed ==> !IsUnder(n, m))
  {
    forall m
      ensures Above(m, n) <==> IsUnder(n, m)
    {
      AboveIffUnder(m, n);
    }
  }

  /** Nothing emitted is under anything else that is emitted, or allowed. */
  lemma OutputIsFlat(lists: Lists, output: seq<string>)
    requires IsOutput(lists, output)
    ensures NoNesting(output) && forall n :: n in output ==> !Allowed(lists.allowed, n)
  {
    forall i, j | 0 <= i < |output| && 0 <= j < |output| && LabelSuffix(output[i], output[j])
      ensures output[i] == output[j]
    {
      assert output[i] in output && output[j] in output;
    }
  }

  /** The topmost listed ancestor of a listed name. */
  lemma {:induction false} Topmost(all: set<string>, name: string) returns (top: string)
    requires name in all && "" !in all
    ensures top in all && LabelSuffix(top, name) && !HasAncestor(all, top)
    decreases |name|
  {
    if !HasAncestor(all, name) {
      top := name;
    } else {
      var m :| m in all && Above(m, name);
      SuffixLength(m, name);
      top := Topmost(all, m);
      SuffixTransitive(top, m, name);
    }
  }

  /** Under an allowed name, everything is allowed. */
  lemma AllowedGoesDown(allowed: set<string>, m: string, n: string)
    requires LabelSuffix(m, n) && Allowed(allowed, m)
    ensures Allowed(allowed, n)
  {
    if "" !in allowed && m != n {
      var a :| a in allowed && LabelSuffix(a, m);
      SuffixTransitive(a, m, n);
      assert n in allowed || Above(a, n);
    }
  }

  /** Every listed name that is not allowed is under one that is emitted, or under one that a glob covers. */
  lemma OutputCovers(lists: Lists, output: seq<string>, name: string)
    requires IsOutput(lists, output) && "" !in lists.all
    requires name in lists.all && !Allowed(lists.allowed, name)
    ensures
      || Listed(output, name)
      || exists top :: top in lists.all && LabelSuffix(top, name) && Covered(lists.globs, top)
  {
    var top := Topmost(lists.all, name);
    if Allowed(lists.allowed, top) {
      AllowedGoesDown(lists.allowed, top, name);
    }
    if !Covered(lists.globs, top) {
      assert top in output;
      var i :| 0 <= i < |output| && output[i] == top;
    }
  }

  /** The empty name among the lists silences the generator. */
  lemma EmptyNameSilences(lists: Lists, output: seq<string>)
    requires IsOutput(lists, output) && ("" in lists.all || "" in lists.allowed)
    ensures forall n :: n !in output
  {
  }

  // ------------------------------------------------------------- the output in the matcher

  predicate IsLetter(c: char) {
    'a' <= c <= 'z' || '0' <= c <= '9' || c == '.' || c == '-'
  }

  /** What the list parsers extract, wildcards aside. */
  predicate IsName(name: string) {
    name != "" && forall i :: 0 <= i < |name| ==> IsLetter(name[i])
  }

  /** The rule the matcher makes of a name: without a leading dot. */
  function RuleOf(name: string): string {
    TrimFirst(name, '.')
  }

  /** The matcher stores a name as a suffix rule, without a leading dot; a dot alone it refuses. */
  lemma NameIsStored(globs: Globs, name: string)
    requires IsName(name)
    ensures Stored(globs, name) == if RuleOf(name) == "" then None else Some((Suffix, RuleOf(name)))
  {
    assert forall i :: 0 <= i < |name| ==> !IsGlobAt(name, i);
    assert name[0] != '*' && name[0] != '=' && name[|name| - 1] != '*';
    assert Lowered(RuleOf(name)) == RuleOf(name);
  }

  /** What is in the matcher once a file is loaded: a line that is refused is skipped. */
  function Loaded(globs: Globs, lines: seq<string>): (s: Stores<string>)
    ensures Backed(s)
  {
    if lines == [] then Nothing()
    else
      var before, line := Loaded(globs, lines[..|lines| - 1]), lines[|lines| - 1];
      match Stored(globs, line)
      case None => before
      case Some((kind, text)) => Added(before, kind, text, line)
  }

  /** The rules of a list of names, a name that leaves none skipped. */
  function RulesOf(names: seq<string>): seq<string> {
    if names == [] then []
    else
      var before, rule := RulesOf(names[..|names| - 1]), RuleOf(names[|names| - 1]);
      if rule == "" then before else before + [rule]
  }

  lemma {:induction false} RuleComesFrom(names: seq<string>, r: string) returns (n: string)
    requires r in RulesOf(names)
    ensures r != "" && n in names && RuleOf(n) == r
  {
    var before, last := names[..|names| - 1], names[|names| - 1];
    if r in RulesOf(before) {
      n := RuleComesFrom(before, r);
      assert n in before;
    } else {
      n := last;
    }
  }

  lemma {:induction false} NameHasRule(names: seq<string>, n: string)
    requires n in names && RuleOf(n) != ""
    ensures RuleOf(n) in RulesOf(names)
  {
    var before, last := names[..|names| - 1], names[|names| - 1];
    if n == last {
    } else {
      assert names == before + [last];
      NameHasRule(before, n);
    }
  }

  /** The stores hold suffix rules and nothing else. */
  ghost predicate OnlySuffixes(s: Stores<string>, rules: seq<string>) {
    && s.suffixes.Keys == ReversedSet(rules)
    && s.exact == map[] && s.prefixes == map[] && s.substrings == [] && s.patterns == []
  }

  lemma OneMoreSuffix(s: Stores<string>, rules: seq<string>, rule: string, val: string)
    requires OnlySuffixes(s, rules)
    ensures OnlySuffixes(Added(s, Suffix, rule, val), rules + [rule])
  {
    ReversedSetAppend(rules + [rule], |rules|);
    assert (rules + [rule])[..|rules|] == rules && (rules + [rule])[..|rules| + 1] == rules + [rule];
  }

  /** Loaded with names, the matcher has their rules as suffixes. */
  lemma {:induction false} NamesFill(globs: Globs, names: seq<string>)
    requires forall n :: n in names ==> IsName(n)
    ensures OnlySuffixes(Loaded(globs, names), RulesOf(names))
  {
    if names == [] {
    } else {
      var init, last := names[..|names| - 1], names[|names| - 1];
      NamesFill(globs, init);
      assert last in names;
      NameIsStored(globs, last);
      if RuleOf(last) != "" {
        OneMoreSuffix(Loaded(globs, init), RulesOf(init), RuleOf(last), last);
      }
    }
  }

  lemma AnswerIsMatch(globs: Globs, names: seq<string>, query: string)
    requires forall n :: n in names ==> IsName(n)
    ensures Answer(globs, Loaded(globs, names), query).Some? <==> Matched(ReversedSet(RulesOf(names)), query).Some?
  {
    NamesFill(globs, names);
  }

  /** The query is under a listed name that is not allowed. */
  ghost predicate ToBeBlocked(lists: Lists, query: string) {
    exists n :: n in lists.all && !Allowed(lists.allowed, n) && LabelSuffix(n, query)
  }

  /** The loaded output answers for exactly the names that are to be blocked, of two characters or more. */
  ghost predicate BlocksExactly(globs: Globs, lists: Lists, output: seq<string>) {
    forall query :: Answer(globs, Loaded(globs, output), query).Some? <==> |query| >= 2 && ToBeBlocked(lists, query)
  }

  /** Lists of names, without globs, and what is emitted for them. */
  ghost predicate PlainOutput(lists: Lists, output: seq<string>) {
    lists.globs.patterns == {} && (forall n :: n in lists.all ==> IsName(n)) && IsOutput(lists, output)
  }

  lemma MatchedIff(lists: Lists, output: seq<string>, query: string)
    requires PlainOutput(lists, output) && |query| >= 2
    ensures Matched(ReversedSet(output), query).Some? <==> ToBeBlocked(lists, query)
  {
    OutputIsFlat(lists, output);
    MatcherCompleteIff(output);
    if Matched(ReversedSet(output), query).Some? {
      MatcherIsSound(output, query);
      var i :| 0 <= i < |output| && LabelSuffix(output[i], query);
      assert output[i] in output;
    }
    if ToBeBlocked(lists, query) {
      var n :| n in lists.all && !Allowed(lists.allowed, n) && LabelSuffix(n, query);
      OutputCovers(lists, output, n);
      var i :| 0 <= i < |output| && LabelSuffix(output[i], n);
      SuffixTransitive(output[i], n, query);
      assert Listed(output, query);
    }
  }

  lemma {:induction false} UndottedRules(names: seq<string>)
    requires forall n :: n in names ==> n != "" && n[0] != '.'
    ensures RulesOf(names) == names
  {
    if names == [] {
    } else {
      var init, last := names[..|names| - 1], names[|names| - 1];
      assert last in names && forall n :: n in init ==> n in names;
      UndottedRules(init);
      assert names == init + [last];
    }
  }

  lemma UndottedIsExact(globs: Globs, lists: Lists, output: seq<string>)
    requires PlainOutput(lists, output) && forall n :: n in output ==> n[0] != '.'
    ensures BlocksExactly(globs, lists, output)
  {
    UndottedRules(output);
    forall query
      ensures Answer(globs, Loaded(globs, output), query).Some? <==> |query| >= 2 && ToBeBlocked(lists, query)
    {
      AnswerIsMatch(globs, output, query);
      if |query| >= 2 {
        MatchedIff(lists, output, query);
      }
    }
  }

  /** No emitted name is above another listed one that is emitted. */
  lemma NoneAboveEmitted(lists: Lists, output: seq<string>, m: string, d: string)
    requires PlainOutput(lists, output) && d in output && m in lists.all
    ensures !Above(m, d)
  {
  }

  /** In front of an emitted name with a leading dot, another label: what is above that is above the name. */
  lemma NothingAboveFront(lists: Lists, output: seq<string>, d: string)
    requires PlainOutput(lists, output) && d in output && d[0] == '.'
    ensures !ToBeBlocked(lists, "_" + d)
  {
    forall n | n in lists.all
      ensures !LabelSuffix(n, "_" + d)
    {
      NoneAboveEmitted(lists, output, n, d);
      AncestorsOf(n, d);
      AncestorsOf(n, "_" + d);
      assert FirstDot(d) == 0 && FirstDot("_" + d) == 1 by {
        assert ("_" + d)[0] == '_' && ("_" + d)[1] == '.';
      }
      assert ("_" + d)[2..] == d[1..];
      assert n != "_" + d by {
        assert !IsLetter(("_" + d)[0]);
      }
    }
  }

  /** A reversed string that starts another ends it. */
  lemma StartsReversed(a: string, b: string)
    requires Reversed(a) <= Reversed(b)
    ensures |a| <= |b| && a == b[|b| - |a|..]
  {
    var at := |b| - |a|;
    forall i | 0 <= i < |a|
      ensures a[i] == b[at + i]
    {
      assert a[i] == Reversed(a)[|a| - 1 - i] == Reversed(b)[|a| - 1 - i];
    }
  }

  /** What is longer than the trimmed name and ends the query is the query or the name itself. */
  lemma LongerEnds(d: string, r: string)
    requires d != "" && Reversed(r) <= Reversed("_" + d) && |r| >= |d|
    ensures r == d || r == "_" + d
  {
    StartsReversed(r, "_" + d);
    assert ("_" + d)[1..] == d && ("_" + d)[0..] == "_" + d;
  }

  /** No rule on such a query is longer than the trimmed name. */
  lemma NoLongerRule(lists: Lists, output: seq<string>, d: string, r: string)
    requires PlainOutput(lists, output) && d in output && d[0] == '.' && r in RulesOf(output)
    ensures r != d && r != "_" + d
  {
    var n := RuleComesFrom(output, r);
    if n[0] == '.' {
      assert n == "." + r;
      assert r == d ==> Above(d, n);
      NoneAboveEmitted(lists, output, d, n);
      assert r != "" ==> IsLetter(n[1]);
    } else {
      assert n == r && IsLetter(n[0]);
    }
  }

  /** The matcher does answer for it: the trimmed name is the longest rule there, and ends at a label. */
  lemma FrontIsBlocked(lists: Lists, output: seq<string>, d: string)
    requires PlainOutput(lists, output) && d in output && d[0] == '.' && |d| >= 2
    ensures Matched(ReversedSet(RulesOf(output)), "_" + d).Some?
  {
    var rules, s, r := RulesOf(output), Reversed("_" + d), RuleOf(d);
    var keys := ReversedSet(rules);
    NameHasRule(output, d);
    var i :| 0 <= i < |rules| && rules[i] == r;
    assert Reversed(rules[i]) in keys;
    TrimmedStarts(d);
    var m := LongestPrefix(keys, s).value;
    var j :| 0 <= j < |rules| && Reversed(rules[j]) == m;
    NoLongerRule(lists, output, d, rules[j]);
    if |m| >= |d| {
      LongerEnds(d, rules[j]);
    }
  }

  lemma TrimmedStarts(d: string)
    requires |d| >= 2 && d[0] == '.'
    ensures Reversed(RuleOf(d)) <= Reversed("_" + d) && Reversed("_" + d)[|d| - 1] == '.'
  {
  }

  /** A dot alone is emitted but never loaded, and its descendant of two dots is missed. */
  lemma DotIsMissed(lists: Lists, output: seq<string>)
    requires PlainOutput(lists, output) && "." in output
    ensures ToBeBlocked(lists, "..") && Matched(ReversedSet(RulesOf(output)), "..").None?
  {
    assert LabelSuffix(".", "..");
    if Matched(ReversedSet(RulesOf(output)), "..").Some? {
      MatcherIsSound(RulesOf(output), "..");
      var i :| 0 <= i < |RulesOf(output)| && LabelSuffix(RulesOf(output)[i], "..");
      var r := RulesOf(output)[i];
      var n := RuleComesFrom(output, r);
      DotRules(n, r);
      NoneAboveEmitted(lists, output, ".", n);
    }
  }

  lemma DotRules(n: string, r: string)
    requires RuleOf(n) == r && r != "" && LabelSuffix(r, "..")
    ensures Above(".", n)
  {
    assert r == ".." || r == ".."[2 - |r|..];
    assert r[0] == '.';
    assert n[0] == '.' && n == "." + r;
    assert n[|n| - 1] == '.' && n[|n| - 2] == '.' && n[|n| - 1..] == ".";
  }

  lemma Differs(globs: Globs, lists: Lists, output: seq<string>, query: string)
    requires Answer(globs, Loaded(globs, output), query).Some? != (|query| >= 2 && ToBeBlocked(lists, query))
    ensures !BlocksExactly(globs, lists, output)
  {
  }

  lemma DottedIsInexact(globs: Globs, lists: Lists, output: seq<string>, d: string)
    requires PlainOutput(lists, output) && d in output && d[0] == '.'
    ensures !BlocksExactly(globs, lists, output)
  {
    if d == "." {
      DotIsMissed(lists, output);
      AnswerIsMatch(globs, output, "..");
      Differs(globs, lists, output, "..");
    } else {
      NothingAboveFront(lists, output, d);
      FrontIsBlocked(lists, output, d);
      AnswerIsMatch(globs, output, "_" + d);
      Differs(globs, lists, output, "_" + d);
    }
  }

  /** From lists to lookups: exactly the right names are blocked if and only if no emitted name starts with a dot. */
  lemma BlocksExactlyIff(globs: Globs, lists: Lists, output: seq<string>)
    requires PlainOutput(lists, output)
    ensures BlocksExactly(globs, lists, output) <==> forall n :: n in output ==> n[0] != '.'
  {
    if d :| d in output && d[0] == '.' {
      DottedIsInexact(globs, lists, output, d);
    } else {
      UndottedIsExact(globs, lists, output);
    }
  }

  /** The generator's output, loaded line by line and asked for a name. */
  method IsBlocked(globs: Globs, lists: Lists, names: seq<seq<string>>, query: string) returns (blocked: bool)
    requires lists.all == AllNames(names) && lists.globs.patterns == {} && forall n :: n in lists.all ==> IsName(n)
    ensures exists output ::
              && PlainOutput(lists, output) && NoDuplicates(output)
              && (blocked <==> Answer(globs, Loaded(globs, output), query).Some?)
    ensures (forall n :: n in lists.all ==> n[0] != '.') ==> (blocked <==> |query| >= 2 && ToBeBlocked(lists, query))
  {
    var output := Emit(lists, names);
    var matcher := new PatternMatcher();
    for i := 0 to |output|
      invariant fresh(matcher) && matcher.View() == Loaded(globs, output[..i])
    {
      var ok := matcher.Add(globs, output[i], output[i]);
      assert output[..i + 1][..i] == output[..i];
    }
    assert output[..|output|] == output;
    var answer := matcher.Eval(globs, query);
    BlocksExactlyIff(globs, lists, output);
    return answer.Some?;
  }

  /** A name with a leading dot is emitted as it is; the matcher trims it, and blocks a name that is not under it. */
  lemma LeadingDotIsTrimmed(globs: Globs, lists: Lists)
    requires lists == Lists({".ab"}, GlobList({}, (n, g) => false), {})
    ensures PlainOutput(lists, [".ab"]) && !ToBeBlocked(lists, "ab")
    ensures Answer(globs, Loaded(globs, [".ab"]), "ab").Some?
  {
    assert !Above(".ab", ".ab");
    NameIsStored(globs, ".ab");
    assert RuleOf(".ab") == "ab";
    assert [".ab"][..0] == [] && Loaded(globs, [".ab"][..0]) == Nothing();
    assert Loaded(globs, [".ab"]).suffixes == map[Reversed("ab") := ".ab"];
  }
}
