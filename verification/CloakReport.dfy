/**
  Which rule is reported when the cloaking rules are refused: when the order in
  which they fill the matcher shows in the report, and when it does not.
 */
module CloakReport {
  import opened Common
  import opened Cycles
  import opened DomainRules
  import opened PatternMatching
  import opened CloakLoops
  import opened CloakOrder

  // ------------------------------------------------------------- endless in some order

  lemma DrawnIsFollowed(globs: Globs, rules: Rules, cycle: seq<string>, drawn: seq<string>, p: nat)
    requires IsCycle(Edges(globs, rules), cycle) && Drawn(Edges(globs, rules), cycle, drawn) && p < |drawn|
    ensures Followed(rules, drawn[p])
  {
    if p < |cycle| {
      OnCycle(globs, rules, cycle, p);
    } else {
      assert PointsInto(Edges(globs, rules), drawn[p], drawn[..p]);
    }
  }

  /** With the drawn rules first, each of them leads to one of them. */
  lemma DrawnLeads(globs: Globs, rules: Rules, cycle: seq<string>, drawn: seq<string>, order: seq<string>, p: nat)
    requires Patterns(globs, rules.Keys) && IsOrder(order, rules.Keys) && drawn <= order && p < |drawn|
    requires IsCycle(Edges(globs, rules), cycle) && Chordless(Edges(globs, rules), cycle)
    requires Drawn(Edges(globs, rules), cycle, drawn) && FilledFrom(MatcherFor(globs, order), rules)
    ensures drawn[p] in rules
    ensures var n := Next(rules, MatcherFor(globs, order), drawn[p]); n.Some? && n.value in Elements(drawn)
  {
    if p < |cycle| {
      CycleLeads(globs, rules, cycle, order, p);
      assert drawn[NextPlace(p, |cycle|)] == cycle[NextPlace(p, |cycle|)];
    } else {
      assert PointsInto(Edges(globs, rules), drawn[p], drawn[..p]);
      var j :| j in drawn[..p] && (drawn[p], j) in Edges(globs, rules);
      assert order[..p] == drawn[..p] && order[p] == drawn[p];
      var q := ContendedGoesBack(globs, rules, order, p, j);
      DrawnIsFollowed(globs, rules, cycle, drawn, q);
      assert drawn[q] in drawn;
    }
  }

  lemma DrawnLeadInside(globs: Globs, rules: Rules, cycle: seq<string>, drawn: seq<string>, order: seq<string>)
    requires Patterns(globs, rules.Keys) && IsOrder(order, rules.Keys) && drawn <= order
    requires IsCycle(Edges(globs, rules), cycle) && Chordless(Edges(globs, rules), cycle)
    requires Drawn(Edges(globs, rules), cycle, drawn) && FilledFrom(MatcherFor(globs, order), rules)
    ensures LeadInside(rules, MatcherFor(globs, order), Elements(drawn))
  {
    forall r | r in Elements(drawn)
      ensures r in rules
    {
      var p :| 0 <= p < |drawn| && drawn[p] == r;
      DrawnIsFollowed(globs, rules, cycle, drawn, p);
    }
    forall r {:trigger Next(rules, MatcherFor(globs, order), r)} | r in Elements(drawn)
      ensures var n := Next(rules, MatcherFor(globs, order), r); n.Some? && n.value in Elements(drawn)
    {
      var p :| 0 <= p < |drawn| && drawn[p] == r;
      DrawnLeads(globs, rules, cycle, drawn, order, p);
    }
  }

  /** The chain of the rule never ends when the matcher is filled in this order. */
  ghost predicate Offends(globs: Globs, rules: Rules, order: seq<string>, k: string)
    requires Patterns(globs, rules.Keys) && IsOrder(order, rules.Keys) && k in rules
  {
    OrderedIsFilled(globs, rules, order);
    Endless(rules, MatcherFor(globs, order), k)
  }

  ghost predicate OffendsInSome(globs: Globs, rules: Rules, k: string)
    requires Patterns(globs, rules.Keys) && k in rules
  {
    exists order :: IsOrder(order, rules.Keys) && Offends(globs, rules, order, k)
  }

  lemma LeadingOffends(globs: Globs, rules: Rules, k: string) returns (order: seq<string>)
    requires Patterns(globs, rules.Keys) && k in rules && LeadsToCycle(Edges(globs, rules), k)
    ensures IsOrder(order, rules.Keys) && Offends(globs, rules, order, k)
  {
    var graph := Edges(globs, rules);
    var walk, cycle := LeadsToChordless(graph, k);
    ChordlessIsDistinct(graph, cycle);
    var drawn := DrawWalk(graph, cycle, walk);
    forall p | 0 <= p < |drawn|
      ensures drawn[p] in rules
    {
      DrawnIsFollowed(globs, rules, cycle, drawn, p);
    }
    order := OrderFrom(rules, drawn);
    OrderedIsFilled(globs, rules, order);
    DrawnLeadInside(globs, rules, cycle, drawn, order);
    TrapIsEndless(rules, MatcherFor(globs, order), Elements(drawn), k);
  }

  /** A rule offends in some order exactly when steps that some order takes lead from it to a cycle. */
  lemma OffendsInSomeIff(globs: Globs, rules: Rules, k: string)
    requires Patterns(globs, rules.Keys) && k in rules
    ensures OffendsInSome(globs, rules, k) <==> LeadsToCycle(Edges(globs, rules), k)
  {
    if OffendsInSome(globs, rules, k) {
      var order :| IsOrder(order, rules.Keys) && Offends(globs, rules, order, k);
      OrderedIsFilled(globs, rules, order);
      OffenderLeads(globs, rules, order, k);
    }
    if LeadsToCycle(Edges(globs, rules), k) {
      var order := LeadingOffends(globs, rules, k);
    }
  }

  // ------------------------------------------------------------- endless in every order

  ghost predicate InTrap(globs: Globs, rules: Rules, k: string) {
    exists trap :: k in trap && IsTrap(globs, rules, trap)
  }

  /** Rules each of which is settled by those before it, as far as `k`. */
  lemma {:induction false} SettledUntil(globs: Globs, rules: Rules, k: string, taken: seq<string>, done: set<string>)
    returns (settled: seq<string>)
    requires Patterns(globs, rules.Keys) && k in rules && !InTrap(globs, rules, k)
    requires done <= rules.Keys && IsOrder(taken, done) && AllSettled(globs, rules, taken)
    ensures AllSettled(globs, rules, settled) && Distinct(settled) && k in settled
    ensures forall i :: 0 <= i < |settled| ==> settled[i] in rules
    decreases rules.Keys - done
  {
    assert forall i :: 0 <= i < |taken| ==> taken[i] in Elements(taken);
    if k in done {
      settled := taken;
    } else {
      assert !IsTrap(globs, rules, rules.Keys - done);
      var r := NextSettled(globs, rules, done);
      OrderAppend(taken, done, r);
      SettledAppend(globs, rules, taken, r);
      settled := SettledUntil(globs, rules, k, taken + [r], done + {r});
    }
  }

  /** With settled rules first, their chains end. */
  lemma SettledFirstEnds(globs: Globs, rules: Rules, settled: seq<string>, order: seq<string>, p: nat)
    requires Patterns(globs, rules.Keys) && IsOrder(order, rules.Keys) && settled <= order && p < |settled|
    requires AllSettled(globs, rules, settled) && forall i :: 0 <= i < |settled| ==> settled[i] in rules
    ensures !Offends(globs, rules, order, settled[p])
  {
    var matcher := MatcherFor(globs, order);
    OrderedIsFilled(globs, rules, order);
    forall q | 0 <= q <= p
      ensures order[q] in rules && GoesBack(rules, matcher, order, q)
    {
      assert order[q] == settled[q] && order[..q] == settled[..q];
      SettledGoesBack(globs, rules, order, q);
    }
    BackwardEnds(rules, matcher, order, p, p + 1);
  }

  lemma UntrappedEnds(globs: Globs, rules: Rules, k: string) returns (order: seq<string>)
    requires Patterns(globs, rules.Keys) && k in rules && !InTrap(globs, rules, k)
    ensures IsOrder(order, rules.Keys) && !Offends(globs, rules, order, k)
  {
    var settled := SettledUntil(globs, rules, k, [], {});
    order := OrderFrom(rules, settled);
    var p :| 0 <= p < |settled| && settled[p] == k;
    SettledFirstEnds(globs, rules, settled, order, p);
  }

  lemma TrappedOffends(globs: Globs, rules: Rules, k: string, order: seq<string>)
    requires Patterns(globs, rules.Keys) && IsOrder(order, rules.Keys) && k in rules && InTrap(globs, rules, k)
    ensures Offends(globs, rules, order, k)
  {
    var trap :| k in trap && IsTrap(globs, rules, trap);
    OrderedIsFilled(globs, rules, order);
    TrapLeadsInside(globs, rules, order, trap);
    TrapIsEndless(rules, MatcherFor(globs, order), trap, k);
  }

  ghost predicate OffendsInAll(globs: Globs, rules: Rules, k: string)
    requires Patterns(globs, rules.Keys) && k in rules
  {
    forall order :: IsOrder(order, rules.Keys) ==> Offends(globs, rules, order, k)
  }

  /** A rule offends in every order exactly when it is in a trap. */
  lemma OffendsInAllIff(globs: Globs, rules: Rules, k: string)
    requires Patterns(globs, rules.Keys) && k in rules
    ensures OffendsInAll(globs, rules, k) <==> InTrap(globs, rules, k)
  {
    if InTrap(globs, rules, k) {
      forall order | IsOrder(order, rules.Keys)
        ensures Offends(globs, rules, order, k)
      {
        TrappedOffends(globs, rules, k, order);
      }
    } else {
      var order := UntrappedEnds(globs, rules, k);
    }
  }

  // ------------------------------------------------------------- the report

  /** The rule that is reported: the offender on the lowest line. */
  ghost predicate Reports(globs: Globs, rules: Rules, order: seq<string>, k: string)
    requires Patterns(globs, rules.Keys) && IsOrder(order, rules.Keys)
  {
    && k in rules && Offends(globs, rules, order, k)
    && forall j :: j in rules && Offends(globs, rules, order, j) ==> rules[k].lineNo <= rules[j].lineNo
  }

  lemma {:induction false} LowestLine(rules: Rules, s: set<string>) returns (k: string)
    requires s != {} && s <= rules.Keys
    ensures k in s && forall j :: j in s ==> rules[k].lineNo <= rules[j].lineNo
  {
    var one :| one in s;
    if s == {one} {
      k := one;
    } else {
      assert s - {one} != {};
      k := LowestLine(rules, s - {one});
      if rules[one].lineNo < rules[k].lineNo {
        k := one;
      }
    }
  }

  /** A table that is refused has a rule reported, and one that is accepted has none. */
  lemma ReportsIffRefused(globs: Globs, rules: Rules, order: seq<string>)
    requires Patterns(globs, rules.Keys) && IsOrder(order, rules.Keys)
    ensures Refused(globs, rules, order) <==> exists k :: Reports(globs, rules, order, k)
  {
    OrderedIsFilled(globs, rules, order);
    var offenders := set k | k in rules && Offends(globs, rules, order, k);
    if Refused(globs, rules, order) {
      var k :| k in rules && Endless(rules, MatcherFor(globs, order), k);
      assert k in offenders;
      var lowest := LowestLine(rules, offenders);
      assert Reports(globs, rules, order, lowest);
    }
  }

  /** What the detector reports is the rule of the report. */
  lemma VerdictIsReport(globs: Globs, rules: Rules, order: seq<string>, e: Recursive)
    requires Patterns(globs, rules.Keys) && IsOrder(order, rules.Keys) && RefusedFor(globs, rules, order, e)
    ensures Reports(globs, rules, order, e.rule)
  {
    OrderedIsFilled(globs, rules, order);
  }

  /** Rules that offend follow a target, so with a line each there is one report at most. */
  lemma OneReport(globs: Globs, rules: Rules, order: seq<string>, j: string, k: string)
    requires Patterns(globs, rules.Keys) && IsOrder(order, rules.Keys) && FollowersOnDistinctLines(rules)
    requires Reports(globs, rules, order, j) && Reports(globs, rules, order, k)
    ensures j == k
  {
    OrderedIsFilled(globs, rules, order);
    EndlessFollows(rules, MatcherFor(globs, order), j);
    EndlessFollows(rules, MatcherFor(globs, order), k);
  }

  /** Every order accepts the table, or every order reports the same rule. */
  ghost predicate SameReport(globs: Globs, rules: Rules)
    requires Patterns(globs, rules.Keys)
  {
    forall a, b, k :: IsOrder(a, rules.Keys) && IsOrder(b, rules.Keys) && Reports(globs, rules, a, k) ==>
      Reports(globs, rules, b, k)
  }

  /** Of the rules that lead to a cycle, the one on the lowest line. */
  ghost predicate FirstToLead(globs: Globs, rules: Rules, k: string) {
    && k in rules && LeadsToCycle(Edges(globs, rules), k)
    && forall j :: j in rules && LeadsToCycle(Edges(globs, rules), j) ==> rules[k].lineNo <= rules[j].lineNo
  }

  lemma OffenderLeadsToo(globs: Globs, rules: Rules, order: seq<string>, k: string)
    requires Patterns(globs, rules.Keys) && IsOrder(order, rules.Keys) && k in rules && Offends(globs, rules, order, k)
    ensures LeadsToCycle(Edges(globs, rules), k) && HasCycle(globs, rules)
  {
    OrderedIsFilled(globs, rules, order);
    OffenderLeads(globs, rules, order, k);
    var walk, cycle :| Reaches(Edges(globs, rules), k, walk, cycle);
  }

  /** In a trap, the first rule that leads to a cycle is reported by every order. */
  lemma TrappedIsReported(globs: Globs, rules: Rules, k: string, order: seq<string>)
    requires Patterns(globs, rules.Keys) && IsOrder(order, rules.Keys)
    requires FirstToLead(globs, rules, k) && InTrap(globs, rules, k)
    ensures Reports(globs, rules, order, k)
  {
    TrappedOffends(globs, rules, k, order);
    forall j | j in rules && Offends(globs, rules, order, j)
      ensures rules[k].lineNo <= rules[j].lineNo
    {
      OffenderLeadsToo(globs, rules, order, j);
    }
  }

  /** Outside a trap, one order reports it and another does not. */
  lemma UntrappedIsNotReported(globs: Globs, rules: Rules, k: string)
    requires Patterns(globs, rules.Keys) && FirstToLead(globs, rules, k) && !InTrap(globs, rules, k)
    ensures !SameReport(globs, rules)
  {
    var a := LeadingOffends(globs, rules, k);
    var b := UntrappedEnds(globs, rules, k);
    forall j | j in rules && Offends(globs, rules, a, j)
      ensures rules[k].lineNo <= rules[j].lineNo
    {
      OffenderLeadsToo(globs, rules, a, j);
    }
    assert Reports(globs, rules, a, k) && !Reports(globs, rules, b, k);
  }

  lemma CycleHasFirst(globs: Globs, rules: Rules) returns (k: string)
    requires HasCycle(globs, rules)
    ensures FirstToLead(globs, rules, k)
  {
    var cycle :| IsCycle(Edges(globs, rules), cycle);
    OnCycle(globs, rules, cycle, 0);
    assert Reaches(Edges(globs, rules), cycle[0], [cycle[0]], cycle);
    var leading := set j | j in rules && LeadsToCycle(Edges(globs, rules), j);
    assert cycle[0] in leading;
    k := LowestLine(rules, leading);
  }

  lemma NoCycleNoReport(globs: Globs, rules: Rules)
    requires Patterns(globs, rules.Keys)
    ensures HasCycle(globs, rules) || SameReport(globs, rules)
  {
    if a, k :| IsOrder(a, rules.Keys) && Reports(globs, rules, a, k) {
      OffenderLeadsToo(globs, rules, a, k);
    }
  }

  lemma TrappedGivesSameReport(globs: Globs, rules: Rules, first: string)
    requires Patterns(globs, rules.Keys) && FollowersOnDistinctLines(rules)
    requires FirstToLead(globs, rules, first) && InTrap(globs, rules, first)
    ensures SameReport(globs, rules)
  {
    forall a, b, k | IsOrder(a, rules.Keys) && IsOrder(b, rules.Keys) && Reports(globs, rules, a, k)
      ensures Reports(globs, rules, b, k)
    {
      TrappedIsReported(globs, rules, first, a);
      TrappedIsReported(globs, rules, first, b);
      OneReport(globs, rules, a, k, first);
    }
  }

  /**
    The report is free of the order exactly when contenders form no cycle, or the
    rule on the lowest line that leads to one is in a trap.
   */
  lemma SameReportIff(globs: Globs, rules: Rules)
    requires Patterns(globs, rules.Keys) && FollowersOnDistinctLines(rules)
    ensures SameReport(globs, rules) <==>
      !HasCycle(globs, rules) || exists k :: FirstToLead(globs, rules, k) && InTrap(globs, rules, k)
  {
    if !HasCycle(globs, rules) {
      NoCycleNoReport(globs, rules);
    } else if exists k :: FirstToLead(globs, rules, k) && InTrap(globs, rules, k) {
      var first :| FirstToLead(globs, rules, first) && InTrap(globs, rules, first);
      TrappedGivesSameReport(globs, rules, first);
    } else {
      var k := CycleHasFirst(globs, rules);
      UntrappedIsNotReported(globs, rules, k);
    }
  }

  // ------------------------------------------------------------- a table that shows it

  /** A rule that ends, one that goes to it or to itself, and on a later line one that goes to itself only. */
  ghost predicate Shadowed(globs: Globs, rules: Rules, end: string, loop: string, self: string) {
    && rules.Keys == {end, loop, self} && end != loop && end != self && loop != self && Patterns(globs, rules.Keys)
    && rules[end].FollowsTarget() && rules[loop].FollowsTarget() && rules[self].FollowsTarget()
    && rules[end].lineNo < rules[loop].lineNo < rules[self].lineNo
    && Contenders(globs, rules.Keys, rules[end].target) == {}
    && Contenders(globs, rules.Keys, rules[loop].target) == {end, loop}
    && Contenders(globs, rules.Keys, rules[self].target) == {self}
  }

  lemma ThreeInOrder(rules: Rules, a: string, b: string, c: string)
    requires rules.Keys == {a, b, c} && a != b && a != c && b != c
    ensures IsOrder([a, b, c], rules.Keys)
  {
  }

  lemma SelfIsTrapped(globs: Globs, rules: Rules, end: string, loop: string, self: string)
    requires Shadowed(globs, rules, end, loop, self)
    ensures InTrap(globs, rules, self) && HasTrap(globs, rules)
  {
    assert IsTrap(globs, rules, {self});
  }

  lemma EndNeverOffends(globs: Globs, rules: Rules, end: string, loop: string, self: string, order: seq<string>)
    requires Shadowed(globs, rules, end, loop, self) && IsOrder(order, rules.Keys)
    ensures !Offends(globs, rules, order, end)
  {
    OrderedIsFilled(globs, rules, order);
    EveryOrderAnswers(globs, rules.Keys, order, rules[end].target);
    assert Nth(rules, MatcherFor(globs, order), end, 1) == None;
  }

  lemma LoopEnds(globs: Globs, rules: Rules, end: string, loop: string, self: string, order: seq<string>)
    requires Shadowed(globs, rules, end, loop, self) && IsOrder(order, rules.Keys) && order == [end, loop, self]
    ensures !Offends(globs, rules, order, loop)
  {
    OrderedIsFilled(globs, rules, order);
    EarliestIsAsked(globs, rules.Keys, order, 0, rules[loop].target);
    EveryOrderAnswers(globs, rules.Keys, order, rules[end].target);
    assert Nth(rules, MatcherFor(globs, order), loop, 1) == Some(end);
    assert Nth(rules, MatcherFor(globs, order), loop, 2) == None;
  }

  lemma LoopOffends(globs: Globs, rules: Rules, end: string, loop: string, self: string, order: seq<string>)
    requires Shadowed(globs, rules, end, loop, self) && IsOrder(order, rules.Keys) && order == [loop, end, self]
    ensures Offends(globs, rules, order, loop)
  {
    OrderedIsFilled(globs, rules, order);
    EarliestIsAsked(globs, rules.Keys, order, 0, rules[loop].target);
    ClosedTrailIsEndless(rules, MatcherFor(globs, order), loop, [loop]);
  }

  /** Of three rules, an offender is reported if each other rule does not offend or is on a later line. */
  lemma ReportedOfThree(globs: Globs, rules: Rules, order: seq<string>, k: string, i: string, j: string)
    requires Patterns(globs, rules.Keys) && IsOrder(order, rules.Keys) && rules.Keys == {k, i, j}
    requires Offends(globs, rules, order, k)
    requires !Offends(globs, rules, order, i) || rules[k].lineNo <= rules[i].lineNo
    requires !Offends(globs, rules, order, j) || rules[k].lineNo <= rules[j].lineNo
    ensures Reports(globs, rules, order, k)
  {
  }

  lemma SelfOffends(globs: Globs, rules: Rules, end: string, loop: string, self: string, order: seq<string>)
    requires Shadowed(globs, rules, end, loop, self) && IsOrder(order, rules.Keys)
    ensures Offends(globs, rules, order, self)
  {
    SelfIsTrapped(globs, rules, end, loop, self);
    TrappedOffends(globs, rules, self, order);
  }

  /** One order of such a table reports the third rule. */
  lemma SelfIsReported(globs: Globs, rules: Rules, end: string, loop: string, self: string, order: seq<string>)
    requires Shadowed(globs, rules, end, loop, self) && IsOrder(order, rules.Keys) && order == [end, loop, self]
    ensures Reports(globs, rules, order, self)
  {
    SelfOffends(globs, rules, end, loop, self, order);
    EndNeverOffends(globs, rules, end, loop, self, order);
    LoopEnds(globs, rules, end, loop, self, order);
    ReportedOfThree(globs, rules, order, self, end, loop);
  }

  /** Another reports the second. */
  lemma LoopIsReported(globs: Globs, rules: Rules, end: string, loop: string, self: string, order: seq<string>)
    requires Shadowed(globs, rules, end, loop, self) && IsOrder(order, rules.Keys) && order == [loop, end, self]
    ensures Reports(globs, rules, order, loop)
  {
    LoopOffends(globs, rules, end, loop, self, order);
    EndNeverOffends(globs, rules, end, loop, self, order);
    ReportedOfThree(globs, rules, order, loop, end, self);
  }

  /** And all refuse it. */
  lemma AllRefuse(globs: Globs, rules: Rules, end: string, loop: string, self: string)
    requires Shadowed(globs, rules, end, loop, self)
    ensures SameVerdict(globs, rules)
  {
    SelfIsTrapped(globs, rules, end, loop, self);
    SameVerdictIff(globs, rules);
  }

  lemma ZIsItsOwnSuffix(globs: Globs)
    ensures Is(globs, "z.z", Suffix, "z.z") && Lowered("z.z") == "z.z" && Reversed("z.z") == "z.z"
  {
    assert forall i :: 0 <= i < 3 ==> !IsGlobAt("z.z", i);
    assert Lowered("z.z") == "z.z";
  }

  /** How the three patterns of the table are stored. */
  ghost predicate StoredSo(globs: Globs) {
    && Is(globs, "*ab*", Substring, "ab") && Is(globs, "*bc*", Substring, "bc") && Is(globs, "z.z", Suffix, "z.z")
  }

  lemma ThreeTexts(globs: Globs, keys: set<string>)
    requires StoredSo(globs) && keys == {"*ab*", "*bc*", "z.z"}
    ensures Texts(globs, keys, Prefix) == {} && ReversedTexts(globs, keys) == {"z.z"}
  {
    ZIsItsOwnSuffix(globs);
    assert Texts(globs, keys, Suffix) == {"z.z"};
  }

  lemma ZIsNoSuffix()
    ensures LongestPrefix({"z.z"}, Reversed("abc")) == None
  {
    assert Reversed("abc")[0] == 'c' && "z.z"[0] == 'z';
  }

  lemma BothAreParts(globs: Globs, keys: set<string>)
    requires StoredSo(globs) && keys == {"*ab*", "*bc*", "z.z"}
    ensures Parts(globs, keys, "abc") == {"*ab*", "*bc*"}
  {
    ThreeTexts(globs, keys);
    assert Contains("abc", "ab") && "abc"[1..] == "bc" && Contains("abc", "bc");
  }

  lemma BothOccur(globs: Globs, keys: set<string>)
    requires StoredSo(globs) && keys == {"*ab*", "*bc*", "z.z"}
    ensures Contenders(globs, keys, "abc") == {"*ab*", "*bc*"}
  {
    ThreeTexts(globs, keys);
    ZIsNoSuffix();
    BothAreParts(globs, keys);
    assert Having(globs, keys, Exact, "abc") == {};
  }

  lemma OnlyItself(globs: Globs, keys: set<string>)
    requires StoredSo(globs) && keys == {"*ab*", "*bc*", "z.z"}
    ensures Contenders(globs, keys, "z.z") == {"z.z"}
  {
    ThreeTexts(globs, keys);
    ZIsItsOwnSuffix(globs);
    assert Having(globs, keys, Exact, "z.z") == {};
    assert LongestPrefix({"z.z"}, "z.z") == Some("z.z");
    assert Having(globs, keys, Suffix, "z.z") == {"z.z"};
  }

  lemma ThreeRules(globs: Globs, rules: Rules, end: string, loop: string, self: string, target: string)
    requires rules == map[end := CloakedName("x", false, 1, None), loop := CloakedName(target, false, 2, None),
                          self := CloakedName(self, false, 3, None)]
    requires end != loop && end != self && loop != self && target != "" && self != ""
    requires Patterns(globs, {end, loop, self})
    requires Contenders(globs, {end, loop, self}, target) == {end, loop}
    requires Contenders(globs, {end, loop, self}, self) == {self}
    ensures Shadowed(globs, rules, end, loop, self)
  {
    assert rules.Keys == {end, loop, self};
  }

  lemma ThreePatterns(globs: Globs)
    ensures StoredSo(globs) && Patterns(globs, {"*ab*", "*bc*", "z.z"})
    ensures "*ab*" != "*bc*" && "*ab*" != "z.z" && "*bc*" != "z.z"
  {
    StarsAreSubstrings(globs);
    ZIsItsOwnSuffix(globs);
    assert "*ab*"[1] != "*bc*"[1];
  }

  lemma TableIsShadowed(globs: Globs, rules: Rules)
    requires rules == map["*ab*" := CloakedName("x", false, 1, None), "*bc*" := CloakedName("abc", false, 2, None),
                          "z.z" := CloakedName("z.z", false, 3, None)]
    ensures Shadowed(globs, rules, "*ab*", "*bc*", "z.z")
  {
    ThreePatterns(globs);
    BothOccur(globs, {"*ab*", "*bc*", "z.z"});
    OnlyItself(globs, {"*ab*", "*bc*", "z.z"});
    ThreeRules(globs, rules, "*ab*", "*bc*", "z.z", "abc");
  }

  /** Every order refuses this table; one reports its second line and another its third. */
  lemma ReportIsDecidedByOrder(globs: Globs, rules: Rules, a: seq<string>, b: seq<string>)
    requires rules == map["*ab*" := CloakedName("x", false, 1, None), "*bc*" := CloakedName("abc", false, 2, None),
                          "z.z" := CloakedName("z.z", false, 3, None)]
    requires a == ["*ab*", "*bc*", "z.z"] && b == ["*bc*", "*ab*", "z.z"]
    ensures Patterns(globs, rules.Keys) && SameVerdict(globs, rules)
    ensures IsOrder(a, rules.Keys) && Reports(globs, rules, a, "z.z")
    ensures IsOrder(b, rules.Keys) && Reports(globs, rules, b, "*bc*")
  {
    TableIsShadowed(globs, rules);
    ThreeInOrder(rules, "*ab*", "*bc*", "z.z");
    ThreeInOrder(rules, "*bc*", "*ab*", "z.z");
    AllRefuse(globs, rules, "*ab*", "*bc*", "z.z");
    SelfIsReported(globs, rules, "*ab*", "*bc*", "z.z", a);
    LoopIsReported(globs, rules, "*ab*", "*bc*", "z.z", b);
  }
}
