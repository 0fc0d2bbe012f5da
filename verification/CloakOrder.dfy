/**
  The order in which the cloaking rules fill the matcher, which a map leaves
  open: where it shows in resolution, and which tables it can get refused.
 */
module CloakOrder {
  import opened Common
  import opened Cycles
  import opened DomainRules
  import opened PatternMatching
  import opened CloakLoops
  import opened CloakTable

  /** The matcher filled with the keys of the table in some order. */
  function MatcherFor(globs: Globs, order: seq<string>): Matcher {
    name => match Asked(globs, order, name)
            case None => None
            case Some(hit) => Some(Hit(hit.0, hit.1))
  }

  lemma OrderedIsFilled(globs: Globs, rules: Rules, order: seq<string>)
    requires Patterns(globs, rules.Keys) && IsOrder(order, rules.Keys)
    ensures FilledFrom(MatcherFor(globs, order), rules)
  {
    forall name | MatcherFor(globs, order)(name).Some?
      ensures MatcherFor(globs, order)(name).value.rule in rules
    {
      EveryOrderAnswers(globs, rules.Keys, order, name);
    }
  }

  /** Where resolution goes on when rule `k` answers. */
  function Via(rules: Rules, k: string): Option<string> {
    if k in rules && rules[k].FollowsTarget() then Some(k) else None
  }

  /** All rules that can answer for the target of `k` lead the same way: there is one, or none is followed. */
  ghost predicate OneWay(globs: Globs, rules: Rules, k: string)
    requires k in rules
  {
    var contenders := Contenders(globs, rules.Keys, rules[k].target);
    rules[k].FollowsTarget() ==>
      forall i, j :: i in contenders && j in contenders ==> Via(rules, i) == Via(rules, j)
  }

  /** The next rule after `k` is one of the contenders for its target, or none if that is not followed. */
  lemma NextIsVia(globs: Globs, rules: Rules, order: seq<string>, k: string)
    requires Patterns(globs, rules.Keys) && IsOrder(order, rules.Keys) && k in rules
    requires FilledFrom(MatcherFor(globs, order), rules)
    ensures var n := Next(rules, MatcherFor(globs, order), k);
      rules[k].FollowsTarget() ==> match Asked(globs, order, rules[k].target)
        case None => n == None && Contenders(globs, rules.Keys, rules[k].target) == {}
        case Some(hit) => hit.1 in Contenders(globs, rules.Keys, rules[k].target) && n == Via(rules, hit.1)
  {
    EveryOrderAnswers(globs, rules.Keys, order, rules[k].target);
  }

  /** Every order gives `k` the same next rule. */
  ghost predicate SameNext(globs: Globs, rules: Rules, k: string)
    requires Patterns(globs, rules.Keys) && k in rules
  {
    forall a, b :: IsOrder(a, rules.Keys) && IsOrder(b, rules.Keys) ==>
      (OrderedIsFilled(globs, rules, a); OrderedIsFilled(globs, rules, b);
       Next(rules, MatcherFor(globs, a), k) == Next(rules, MatcherFor(globs, b), k))
  }

  /** The order shows in the walk's edges exactly where contenders for a target lead different ways. */
  lemma EdgeIsHiddenIff(globs: Globs, rules: Rules, k: string)
    requires Patterns(globs, rules.Keys) && k in rules
    ensures SameNext(globs, rules, k) <==> OneWay(globs, rules, k)
  {
    if OneWay(globs, rules, k) {
      forall a, b | IsOrder(a, rules.Keys) && IsOrder(b, rules.Keys)
        ensures (OrderedIsFilled(globs, rules, a); OrderedIsFilled(globs, rules, b);
                 Next(rules, MatcherFor(globs, a), k) == Next(rules, MatcherFor(globs, b), k))
      {
        OrderedIsFilled(globs, rules, a);
        OrderedIsFilled(globs, rules, b);
        NextIsVia(globs, rules, a, k);
        NextIsVia(globs, rules, b, k);
      }
    } else {
      var c := Contenders(globs, rules.Keys, rules[k].target);
      var i, j :| i in c && j in c && Via(rules, i) != Via(rules, j);
      var a := EveryContenderAnswers(globs, rules.Keys, rules[k].target, i);
      var b := EveryContenderAnswers(globs, rules.Keys, rules[k].target, j);
      OrderedIsFilled(globs, rules, a);
      OrderedIsFilled(globs, rules, b);
      NextIsVia(globs, rules, a, k);
      NextIsVia(globs, rules, b, k);
    }
  }

  /** Two matchers that lead every rule to the same next one, with the same pattern. */
  ghost predicate LeadAlike(rules: Rules, a: Matcher, b: Matcher)
    requires FilledFrom(a, rules) && FilledFrom(b, rules)
  {
    forall k :: k in rules ==>
      && Next(rules, a, k) == Next(rules, b, k)
      && (Next(rules, a, k).Some? ==> a(rules[k].target) == b(rules[k].target))
  }

  lemma {:induction false} SameChains(rules: Rules, a: Matcher, b: Matcher, k: string, n: nat)
    requires FilledFrom(a, rules) && FilledFrom(b, rules) && LeadAlike(rules, a, b) && k in rules
    ensures Nth(rules, a, k, n) == Nth(rules, b, k, n)
  {
    if n == 0 {
    } else {
      SameChains(rules, a, b, k, n - 1);
    }
  }

  lemma SameEndless(rules: Rules, a: Matcher, b: Matcher, k: string)
    requires FilledFrom(a, rules) && FilledFrom(b, rules) && LeadAlike(rules, a, b) && k in rules
    ensures Endless(rules, a, k) <==> Endless(rules, b, k)
  {
    forall n: nat
      ensures Nth(rules, a, k, n) == Nth(rules, b, k, n)
    {
      SameChains(rules, a, b, k, n);
    }
  }

  lemma SameLoop(rules: Rules, a: Matcher, b: Matcher, k: string, pattern: string)
    requires FilledFrom(a, rules) && FilledFrom(b, rules) && LeadAlike(rules, a, b) && k in rules
    requires LoopsBackTo(rules, a, k, pattern)
    ensures LoopsBackTo(rules, b, k, pattern)
  {
    var trail :| IsClosedTrail(rules, a, k, trail) && pattern == a(rules[trail[|trail| - 1]].target).value.pattern;
    assert IsClosedTrail(rules, b, k, trail);
  }

  /** Where every followed target leads one way, the verdict is the same for every order: offenders and report. */
  lemma VerdictIgnoresOrder(globs: Globs, rules: Rules, a: seq<string>, b: seq<string>, e: Recursive)
    requires Patterns(globs, rules.Keys) && IsOrder(a, rules.Keys) && IsOrder(b, rules.Keys)
    requires forall k :: k in rules ==> OneWay(globs, rules, k)
    ensures FilledFrom(MatcherFor(globs, a), rules) && FilledFrom(MatcherFor(globs, b), rules)
    ensures
      forall k :: k in rules ==>
        (Endless(rules, MatcherFor(globs, a), k) <==> Endless(rules, MatcherFor(globs, b), k))
    ensures IsFirstOffender(rules, MatcherFor(globs, a), e) ==> IsFirstOffender(rules, MatcherFor(globs, b), e)
  {
    var ma, mb := MatcherFor(globs, a), MatcherFor(globs, b);
    OrderedIsFilled(globs, rules, a);
    OrderedIsFilled(globs, rules, b);
    forall k | k in rules
      ensures Next(rules, ma, k) == Next(rules, mb, k)
      ensures Next(rules, ma, k).Some? ==> ma(rules[k].target) == mb(rules[k].target)
    {
      NextIsVia(globs, rules, a, k);
      NextIsVia(globs, rules, b, k);
      EveryOrderAnswers(globs, rules.Keys, a, rules[k].target);
      EveryOrderAnswers(globs, rules.Keys, b, rules[k].target);
    }
    assert LeadAlike(rules, ma, mb);
    forall k | k in rules
      ensures Endless(rules, ma, k) <==> Endless(rules, mb, k)
    {
      SameEndless(rules, ma, mb, k);
    }
    if IsFirstOffender(rules, ma, e) {
      SameLoop(rules, ma, mb, e.rule, e.pattern);
    }
  }

  // --------------------------------- tables that some order refuses

  /** The steps that resolution can take in some order: from a rule to a contender for its target, both followed. */
  ghost function Edges(globs: Globs, rules: Rules): set<(string, string)> {
    set k, j | k in rules && rules[k].FollowsTarget() && j in rules && rules[j].FollowsTarget() &&
               j in Contenders(globs, rules.Keys, rules[k].target) :: (k, j)
  }

  /** Under an order, a step of resolution is an edge. */
  lemma NextIsEdge(globs: Globs, rules: Rules, order: seq<string>, k: string)
    requires Patterns(globs, rules.Keys) && IsOrder(order, rules.Keys) && k in rules
    requires FilledFrom(MatcherFor(globs, order), rules)
    ensures Next(rules, MatcherFor(globs, order), k).Some? ==>
      (k, Next(rules, MatcherFor(globs, order), k).value) in Edges(globs, rules)
  {
    NextIsVia(globs, rules, order, k);
  }

  /** An endless chain comes back to a rule. */
  lemma EndlessCloses(rules: Rules, matcher: Matcher, k: string) returns (met: seq<string>, i: nat, j: nat)
    requires FilledFrom(matcher, rules) && k in rules && Endless(rules, matcher, k)
    ensures i < j < |met| && met[0] == k && met[i] == met[j] && forall n :: 0 <= n < |met| ==> met[n] in rules
    ensures forall n :: 0 <= n < |met| - 1 ==> Next(rules, matcher, met[n]) == Some(met[n + 1])
  {
    met := seq(|rules| + 1, (n: nat) requires Nth(rules, matcher, k, n).Some? => Nth(rules, matcher, k, n).value);
    if forall a, b :: 0 <= a < b < |met| ==> met[a] != met[b] {
      Pigeonhole(met, rules.Keys);
    }
    i, j :| 0 <= i < j < |met| && met[i] == met[j];
  }

  /** An endless chain leads to a cycle of the graph its steps are in. */
  lemma EndlessLeads(rules: Rules, matcher: Matcher, graph: Graph, k: string)
    requires FilledFrom(matcher, rules) && k in rules && Endless(rules, matcher, k)
    requires forall r :: r in rules && Next(rules, matcher, r).Some? ==> (r, Next(rules, matcher, r).value) in graph
    ensures LeadsToCycle(graph, k)
  {
    var met, i, j := EndlessCloses(rules, matcher, k);
    var walk, cycle := met[..i + 1], met[i..j];
    forall n | 0 <= n < j
      ensures (met[n], met[n + 1]) in graph
    {
      assert Next(rules, matcher, met[n]) == Some(met[n + 1]);
    }
    assert cycle[|cycle| - 1] == met[j - 1];
    assert Reaches(graph, k, walk, cycle);
  }

  /** Some rules first, in their order, and then all others. */
  lemma OrderFrom(rules: Rules, first: seq<string>) returns (order: seq<string>)
    requires Distinct(first) && forall i :: 0 <= i < |first| ==> first[i] in rules
    ensures IsOrder(order, rules.Keys) && first <= order
  {
    var rest := OrderExists(rules.Keys - Elements(first));
    order := first + rest;
    assert Elements(order) == Elements(first) + Elements(rest);
    assert forall i :: 0 <= i < |rest| ==> rest[i] in Elements(rest);
  }

  ghost predicate Followed(rules: Rules, k: string) {
    k in rules && rules[k].FollowsTarget()
  }

  lemma OnCycle(globs: Globs, rules: Rules, cycle: seq<string>, i: nat)
    requires IsCycle(Edges(globs, rules), cycle) && i < |cycle|
    ensures Followed(rules, cycle[i])
    ensures cycle[NextPlace(i, |cycle|)] in Contenders(globs, rules.Keys, rules[cycle[i]].target)
  {
    assert (cycle[i], cycle[NextPlace(i, |cycle|)]) in Edges(globs, rules);
  }

  /** The others on a chordless cycle are no contenders. */
  lemma OthersOnCycle(globs: Globs, rules: Rules, cycle: seq<string>, i: nat, q: nat)
    requires IsCycle(Edges(globs, rules), cycle) && Chordless(Edges(globs, rules), cycle)
    requires i < |cycle| && q < |cycle| && q != NextPlace(i, |cycle|)
    ensures Followed(rules, cycle[i]) && cycle[q] !in Contenders(globs, rules.Keys, rules[cycle[i]].target)
  {
    OnCycle(globs, rules, cycle, i);
    OnCycle(globs, rules, cycle, q);
    assert (cycle[i], cycle[q]) !in Edges(globs, rules);
  }

  /** With the cycle first, each of its rules leads to the next: the others do not contend, and the rest come later. */
  lemma CycleLeads(globs: Globs, rules: Rules, cycle: seq<string>, order: seq<string>, i: nat)
    requires Patterns(globs, rules.Keys) && IsOrder(order, rules.Keys) && cycle <= order && i < |cycle|
    requires IsCycle(Edges(globs, rules), cycle) && Chordless(Edges(globs, rules), cycle)
    requires FilledFrom(MatcherFor(globs, order), rules)
    ensures cycle[i] in rules && Next(rules, MatcherFor(globs, order), cycle[i]) == Some(cycle[NextPlace(i, |cycle|)])
  {
    var j := NextPlace(i, |cycle|);
    OnCycle(globs, rules, cycle, i);
    OnCycle(globs, rules, cycle, j);
    var name := rules[cycle[i]].target;
    forall q | 0 <= q < j
      ensures order[q] !in Contenders(globs, rules.Keys, name)
    {
      OthersOnCycle(globs, rules, cycle, i, q);
    }
    EarliestIsAsked(globs, rules.Keys, order, j, name);
  }

  /** Every rule of the cycle then has an endless chain. */
  lemma {:induction false} CycleGoesRound(rules: Rules, matcher: Matcher, cycle: seq<string>, n: nat)
    requires FilledFrom(matcher, rules) && cycle != [] && cycle[0] in rules
    requires forall i :: 0 <= i < |cycle| ==>
      cycle[i] in rules && Next(rules, matcher, cycle[i]) == Some(cycle[NextPlace(i, |cycle|)])
    ensures Nth(rules, matcher, cycle[0], n).Some? && Nth(rules, matcher, cycle[0], n).value in cycle
  {
    if n == 0 {
    } else {
      CycleGoesRound(rules, matcher, cycle, n - 1);
    }
  }

  /** Filled in this order, the matcher makes some rule's chain endless, and the table is refused. */
  ghost predicate Refused(globs: Globs, rules: Rules, order: seq<string>)
    requires Patterns(globs, rules.Keys) && IsOrder(order, rules.Keys)
  {
    OrderedIsFilled(globs, rules, order);
    exists k :: k in rules && Endless(rules, MatcherFor(globs, order), k)
  }

  ghost predicate RefusedBySome(globs: Globs, rules: Rules)
    requires Patterns(globs, rules.Keys)
  {
    exists order :: IsOrder(order, rules.Keys) && Refused(globs, rules, order)
  }

  ghost predicate HasCycle(globs: Globs, rules: Rules) {
    exists cycle :: IsCycle(Edges(globs, rules), cycle)
  }

  /** Some order refuses the table exactly when contenders for targets form a cycle; without one, all accept it. */
  lemma RefusedBySomeIff(globs: Globs, rules: Rules)
    requires Patterns(globs, rules.Keys)
    ensures RefusedBySome(globs, rules) <==> HasCycle(globs, rules)
  {
    if RefusedBySome(globs, rules) {
      var order :| IsOrder(order, rules.Keys) && Refused(globs, rules, order);
      RefusalHasCycle(globs, rules, order);
    }
    if HasCycle(globs, rules) {
      var order := CycleIsRefused(globs, rules);
    }
  }

  lemma OffenderLeads(globs: Globs, rules: Rules, order: seq<string>, k: string)
    requires Patterns(globs, rules.Keys) && IsOrder(order, rules.Keys) && k in rules
    requires FilledFrom(MatcherFor(globs, order), rules) && Endless(rules, MatcherFor(globs, order), k)
    ensures LeadsToCycle(Edges(globs, rules), k)
  {
    var matcher := MatcherFor(globs, order);
    forall r | r in rules && Next(rules, matcher, r).Some?
      ensures (r, Next(rules, matcher, r).value) in Edges(globs, rules)
    {
      NextIsEdge(globs, rules, order, r);
    }
    EndlessLeads(rules, matcher, Edges(globs, rules), k);
  }

  lemma RefusalHasCycle(globs: Globs, rules: Rules, order: seq<string>)
    requires Patterns(globs, rules.Keys) && IsOrder(order, rules.Keys) && Refused(globs, rules, order)
    ensures HasCycle(globs, rules)
  {
    OrderedIsFilled(globs, rules, order);
    var k :| k in rules && Endless(rules, MatcherFor(globs, order), k);
    OffenderLeads(globs, rules, order, k);
    var walk, cycle :| Reaches(Edges(globs, rules), k, walk, cycle);
  }

  lemma CycleIsRefused(globs: Globs, rules: Rules) returns (order: seq<string>)
    requires Patterns(globs, rules.Keys) && HasCycle(globs, rules)
    ensures IsOrder(order, rules.Keys) && Refused(globs, rules, order)
  {
    var long :| IsCycle(Edges(globs, rules), long);
    var cycle := ChordlessCycle(Edges(globs, rules), long);
    ChordlessIsDistinct(Edges(globs, rules), cycle);
    forall i | 0 <= i < |cycle|
      ensures cycle[i] in rules
    {
      OnCycle(globs, rules, cycle, i);
    }
    order := OrderFrom(rules, cycle);
    OrderedIsFilled(globs, rules, order);
    CycleIsEndless(globs, rules, cycle, order);
  }

  lemma CycleIsEndless(globs: Globs, rules: Rules, cycle: seq<string>, order: seq<string>)
    requires Patterns(globs, rules.Keys) && IsOrder(order, rules.Keys) && cycle <= order
    requires IsCycle(Edges(globs, rules), cycle) && Chordless(Edges(globs, rules), cycle)
    requires FilledFrom(MatcherFor(globs, order), rules)
    ensures cycle[0] in rules && Endless(rules, MatcherFor(globs, order), cycle[0])
  {
    forall i | 0 <= i < |cycle|
      ensures cycle[i] in rules && Next(rules, MatcherFor(globs, order), cycle[i]) == Some(cycle[NextPlace(i, |cycle|)])
    {
      CycleLeads(globs, rules, cycle, order, i);
    }
    forall n: nat
      ensures Nth(rules, MatcherFor(globs, order), cycle[0], n).Some?
    {
      CycleGoesRound(rules, MatcherFor(globs, order), cycle, n);
    }
  }

  // --------------------------------- tables that some order accepts

  /** Followed rules whose targets always have a contender, and none outside: resolution never gets out. */
  ghost predicate IsTrap(globs: Globs, rules: Rules, trap: set<string>) {
    trap != {} && forall k :: k in trap ==>
      && Followed(rules, k) && Contenders(globs, rules.Keys, rules[k].target) != {}
      && Contenders(globs, rules.Keys, rules[k].target) <= trap
  }

  ghost predicate HasTrap(globs: Globs, rules: Rules) {
    exists trap :: IsTrap(globs, rules, trap)
  }

  /** Every rule of the set leads to one of the set. */
  ghost predicate LeadInside(rules: Rules, matcher: Matcher, trap: set<string>)
    requires FilledFrom(matcher, rules)
  {
    trap <= rules.Keys &&
    forall r {:trigger Next(rules, matcher, r)} :: r in trap ==>
      Next(rules, matcher, r).Some? && Next(rules, matcher, r).value in trap
  }

  /** Such rules keep a chain among them. */
  lemma {:induction false} ChainStaysIn(rules: Rules, matcher: Matcher, trap: set<string>, k: string, n: nat)
    requires FilledFrom(matcher, rules) && k in trap && LeadInside(rules, matcher, trap)
    ensures Nth(rules, matcher, k, n).Some? && Nth(rules, matcher, k, n).value in trap
  {
    if n == 0 {
    } else {
      ChainStaysIn(rules, matcher, trap, k, n - 1);
    }
  }

  lemma TrapIsEndless(rules: Rules, matcher: Matcher, trap: set<string>, k: string)
    requires FilledFrom(matcher, rules) && k in trap && LeadInside(rules, matcher, trap)
    ensures Endless(rules, matcher, k)
  {
    forall n: nat
      ensures Nth(rules, matcher, k, n).Some?
    {
      ChainStaysIn(rules, matcher, trap, k, n);
    }
  }

  lemma TrapLeads(globs: Globs, rules: Rules, order: seq<string>, trap: set<string>, k: string)
    requires Patterns(globs, rules.Keys) && IsOrder(order, rules.Keys) && IsTrap(globs, rules, trap) && k in trap
    requires FilledFrom(MatcherFor(globs, order), rules)
    ensures k in rules
    ensures var n := Next(rules, MatcherFor(globs, order), k); n.Some? && n.value in trap
  {
    assert Followed(rules, k);
    NextIsVia(globs, rules, order, k);
    var j := Asked(globs, order, rules[k].target).value.1;
    assert Followed(rules, j);
  }

  lemma TrapLeadsInside(globs: Globs, rules: Rules, order: seq<string>, trap: set<string>)
    requires Patterns(globs, rules.Keys) && IsOrder(order, rules.Keys) && IsTrap(globs, rules, trap)
    requires FilledFrom(MatcherFor(globs, order), rules)
    ensures LeadInside(rules, MatcherFor(globs, order), trap)
  {
    assert trap <= rules.Keys;
    forall r {:trigger Next(rules, MatcherFor(globs, order), r)} | r in trap
      ensures var n := Next(rules, MatcherFor(globs, order), r); n.Some? && n.value in trap
    {
      TrapLeads(globs, rules, order, trap, r);
    }
  }

  lemma TrapIsRefused(globs: Globs, rules: Rules, order: seq<string>, trap: set<string>)
    requires Patterns(globs, rules.Keys) && IsOrder(order, rules.Keys) && IsTrap(globs, rules, trap)
    ensures Refused(globs, rules, order)
  {
    OrderedIsFilled(globs, rules, order);
    TrapLeadsInside(globs, rules, order, trap);
    var k :| k in trap;
    TrapIsEndless(rules, MatcherFor(globs, order), trap, k);
  }

  /** A rule ends at once, or one of `earlier` is a contender for its target. */
  ghost predicate Settled(globs: Globs, rules: Rules, earlier: set<string>, k: string) {
    || !Followed(rules, k) || Contenders(globs, rules.Keys, rules[k].target) == {}
    || exists j :: j in earlier && j in Contenders(globs, rules.Keys, rules[k].target)
  }

  ghost predicate AllSettled(globs: Globs, rules: Rules, order: seq<string>) {
    forall p :: 0 <= p < |order| ==> Settled(globs, rules, Elements(order[..p]), order[p])
  }

  /** Unless all that are left are a trap, one of them is settled by those taken already. */
  lemma NextSettled(globs: Globs, rules: Rules, done: set<string>) returns (k: string)
    requires Patterns(globs, rules.Keys) && done < rules.Keys && !IsTrap(globs, rules, rules.Keys - done)
    ensures k in rules && k !in done && Settled(globs, rules, done, k)
  {
    var left := rules.Keys - done;
    k :| k in left && !(&& Followed(rules, k) && Contenders(globs, rules.Keys, rules[k].target) != {}
                        && Contenders(globs, rules.Keys, rules[k].target) <= left);
    if Followed(rules, k) {
      ContendersAreKeys(globs, rules.Keys, rules[k].target);
    }
  }

  lemma SettledAppend(globs: Globs, rules: Rules, order: seq<string>, k: string)
    requires AllSettled(globs, rules, order) && Settled(globs, rules, Elements(order), k)
    ensures AllSettled(globs, rules, order + [k])
  {
    var longer := order + [k];
    forall p | 0 <= p < |longer|
      ensures Settled(globs, rules, Elements(longer[..p]), longer[p])
    {
      assert longer[..p] == order[..p];
      assert order[..|order|] == order;
    }
  }

  lemma {:induction false} SettledOrder(globs: Globs, rules: Rules, taken: seq<string>, done: set<string>)
    returns (order: seq<string>)
    requires Patterns(globs, rules.Keys) && !HasTrap(globs, rules)
    requires done <= rules.Keys && IsOrder(taken, done) && AllSettled(globs, rules, taken)
    ensures IsOrder(order, rules.Keys) && AllSettled(globs, rules, order)
    decreases rules.Keys - done
  {
    if done == rules.Keys {
      order := taken;
    } else {
      var k := NextSettled(globs, rules, done);
      OrderAppend(taken, done, k);
      SettledAppend(globs, rules, taken, k);
      order := SettledOrder(globs, rules, taken + [k], done + {k});
    }
  }

  /** The first place at which a contender stands. */
  lemma FirstContender(order: seq<string>, contenders: set<string>, j: string) returns (q: nat)
    requires j in order && j in contenders
    ensures q < |order| && order[q] in contenders && forall i :: 0 <= i < q ==> order[i] !in contenders
  {
    q := 0;
    while order[q] !in contenders
      invariant q < |order| && j in order[q..] && forall i :: 0 <= i < q ==> order[i] !in contenders
      decreases |order| - q
    {
      assert order[q..] == [order[q]] + order[q + 1..];
      q := q + 1;
    }
  }

  /** The chain of the rule at `p` ends at once or goes to an earlier place. */
  ghost predicate GoesBack(rules: Rules, matcher: Matcher, order: seq<string>, p: nat)
    requires FilledFrom(matcher, rules) && p < |order| && order[p] in rules
  {
    var next := Next(rules, matcher, order[p]);
    next.None? || exists q :: 0 <= q < p && next == Some(order[q])
  }

  /** With a contender before it, the earliest one answers, and that is before it too. */
  lemma ContendedGoesBack(globs: Globs, rules: Rules, order: seq<string>, p: nat, j: string) returns (q: nat)
    requires Patterns(globs, rules.Keys) && IsOrder(order, rules.Keys) && p < |order| && Followed(rules, order[p])
    requires j in order[..p] && j in Contenders(globs, rules.Keys, rules[order[p]].target)
    requires FilledFrom(MatcherFor(globs, order), rules)
    ensures q < p && Next(rules, MatcherFor(globs, order), order[p]) == Via(rules, order[q])
  {
    var name := rules[order[p]].target;
    q := FirstContender(order[..p], Contenders(globs, rules.Keys, name), j);
    assert forall i :: 0 <= i < p ==> order[..p][i] == order[i];
    EarliestIsAsked(globs, rules.Keys, order, q, name);
  }

  lemma SettledGoesBack(globs: Globs, rules: Rules, order: seq<string>, p: nat)
    requires Patterns(globs, rules.Keys) && IsOrder(order, rules.Keys) && p < |order| && order[p] in rules
    requires Settled(globs, rules, Elements(order[..p]), order[p]) && FilledFrom(MatcherFor(globs, order), rules)
    ensures GoesBack(rules, MatcherFor(globs, order), order, p)
  {
    var k := order[p];
    if !Followed(rules, k) {
      assert Next(rules, MatcherFor(globs, order), k).None?;
    } else if Contenders(globs, rules.Keys, rules[k].target) == {} {
      NextIsVia(globs, rules, order, k);
    } else {
      var j :| j in Elements(order[..p]) && j in Contenders(globs, rules.Keys, rules[k].target);
      var q := ContendedGoesBack(globs, rules, order, p, j);
    }
  }

  /** Chains that only go back reach the start of the order and end. */
  lemma {:induction false} BackwardEnds(rules: Rules, matcher: Matcher, order: seq<string>, p: nat, n: nat)
    requires FilledFrom(matcher, rules) && p < |order|
    requires forall q :: 0 <= q <= p ==> order[q] in rules && GoesBack(rules, matcher, order, q)
    ensures var r := Nth(rules, matcher, order[p], n); r.None? || exists q :: 0 <= q <= p - n && r == Some(order[q])
  {
    if n == 0 {
    } else {
      BackwardEnds(rules, matcher, order, p, n - 1);
      var r := Nth(rules, matcher, order[p], n - 1);
      if r.Some? {
        var q :| 0 <= q <= p - (n - 1) && r == Some(order[q]);
        assert GoesBack(rules, matcher, order, q);
      }
    }
  }

  lemma SettledIsAccepted(globs: Globs, rules: Rules, order: seq<string>)
    requires Patterns(globs, rules.Keys) && IsOrder(order, rules.Keys) && AllSettled(globs, rules, order)
    ensures !Refused(globs, rules, order)
  {
    var matcher := MatcherFor(globs, order);
    OrderedIsFilled(globs, rules, order);
    forall p | 0 <= p < |order|
      ensures order[p] in rules && GoesBack(rules, matcher, order, p)
    {
      assert order[p] in Elements(order);
      SettledGoesBack(globs, rules, order, p);
    }
    forall k | k in rules
      ensures !Endless(rules, matcher, k)
    {
      assert k in Elements(order);
      var p :| 0 <= p < |order| && order[p] == k;
      BackwardEnds(rules, matcher, order, p, p + 1);
    }
  }

  ghost predicate AcceptedBySome(globs: Globs, rules: Rules)
    requires Patterns(globs, rules.Keys)
  {
    exists order :: IsOrder(order, rules.Keys) && !Refused(globs, rules, order)
  }

  /** Some order accepts the table exactly when it has no trap; every order refuses it when it has one. */
  lemma AcceptedBySomeIff(globs: Globs, rules: Rules)
    requires Patterns(globs, rules.Keys)
    ensures AcceptedBySome(globs, rules) <==> !HasTrap(globs, rules)
  {
    if HasTrap(globs, rules) {
      var trap :| IsTrap(globs, rules, trap);
      forall order | IsOrder(order, rules.Keys)
        ensures Refused(globs, rules, order)
      {
        TrapIsRefused(globs, rules, order, trap);
      }
    } else {
      var order := SettledOrder(globs, rules, [], {});
      SettledIsAccepted(globs, rules, order);
    }
  }

  /** Whether the table is refused is the same for every order. */
  ghost predicate SameVerdict(globs: Globs, rules: Rules)
    requires Patterns(globs, rules.Keys)
  {
    forall a, b :: IsOrder(a, rules.Keys) && IsOrder(b, rules.Keys) ==>
      (Refused(globs, rules, a) <==> Refused(globs, rules, b))
  }

  /** The verdict is free of the order exactly when contenders form no cycle, or there is a trap. */
  lemma SameVerdictIff(globs: Globs, rules: Rules)
    requires Patterns(globs, rules.Keys)
    ensures SameVerdict(globs, rules) <==> !HasCycle(globs, rules) || HasTrap(globs, rules)
  {
    RefusedBySomeIff(globs, rules);
    AcceptedBySomeIff(globs, rules);
    if HasCycle(globs, rules) && !HasTrap(globs, rules) {
      var a :| IsOrder(a, rules.Keys) && Refused(globs, rules, a);
      var b :| IsOrder(b, rules.Keys) && !Refused(globs, rules, b);
      assert !SameVerdict(globs, rules);
    } else {
      assert forall a :: IsOrder(a, rules.Keys) ==> (Refused(globs, rules, a) <==> HasCycle(globs, rules));
    }
  }

  // --------------------------------- two tables that show it

  lemma StarsAreSubstrings(globs: Globs)
    ensures Is(globs, "*ab*", Substring, "ab") && Is(globs, "*bc*", Substring, "bc")
    ensures Lowered("*ab*") == "*ab*" && Lowered("*bc*") == "*bc*"
  {
    assert "*ab*"[1..3] == "ab" && "*bc*"[1..3] == "bc";
    assert forall i :: 0 <= i < 4 ==> !IsGlobAt("*ab*", i) && !IsGlobAt("*bc*", i);
    assert Lowered("ab") == "ab" && Lowered("bc") == "bc";
  }

  lemma DotsAreSuffixes(globs: Globs)
    ensures Is(globs, "a.b", Suffix, "a.b") && Is(globs, "*.a.b", Suffix, "a.b")
    ensures Lowered("a.b") == "a.b" && Lowered("*.a.b") == "*.a.b"
  {
    assert "*.a.b"[1..] == ".a.b" && ".a.b"[1..] == "a.b";
    assert forall i :: 0 <= i < 3 ==> !IsGlobAt("a.b", i);
    assert forall i :: 0 <= i < 5 ==> !IsGlobAt("*.a.b", i);
    assert Lowered("a.b") == "a.b" && Lowered("*.a.b") == "*.a.b";
  }

  /** A table of two rules of which one has a target that no rule answers for, and both answer for the other's. */
  ghost predicate Ambiguous(globs: Globs, rules: Rules, end: string, loop: string) {
    && rules.Keys == {end, loop} && end != loop && Patterns(globs, rules.Keys)
    && rules[end].FollowsTarget() && rules[loop].FollowsTarget()
    && Contenders(globs, rules.Keys, rules[end].target) == {}
    && Contenders(globs, rules.Keys, rules[loop].target) == {end, loop}
  }

  lemma TwoOrders(rules: Rules, a: string, b: string)
    requires rules.Keys == {a, b} && a != b
    ensures IsOrder([a, b], rules.Keys)
  {
  }

  /** One order accepts such a table. */
  lemma AmbiguousIsAccepted(globs: Globs, rules: Rules, end: string, loop: string)
    requires Ambiguous(globs, rules, end, loop) && IsOrder([end, loop], rules.Keys)
    ensures !Refused(globs, rules, [end, loop])
  {
    var order := [end, loop];
    OrderedIsFilled(globs, rules, order);
    EarliestIsAsked(globs, rules.Keys, order, 0, rules[loop].target);
    EveryOrderAnswers(globs, rules.Keys, order, rules[end].target);
    assert Nth(rules, MatcherFor(globs, order), end, 1) == None;
    assert Nth(rules, MatcherFor(globs, order), loop, 1) == Some(end);
    assert Nth(rules, MatcherFor(globs, order), loop, 2) == None;
  }

  /** The other refuses it. */
  lemma AmbiguousIsRefused(globs: Globs, rules: Rules, end: string, loop: string)
    requires Ambiguous(globs, rules, end, loop) && IsOrder([loop, end], rules.Keys)
    ensures Refused(globs, rules, [loop, end])
  {
    var order := [loop, end];
    OrderedIsFilled(globs, rules, order);
    EarliestIsAsked(globs, rules.Keys, order, 0, rules[loop].target);
    ClosedTrailIsEndless(rules, MatcherFor(globs, order), loop, [loop]);
  }

  lemma TwoSubstrings(globs: Globs)
    ensures Contenders(globs, {"*ab*", "*bc*"}, "abc") == {"*ab*", "*bc*"}
  {
    var keys := {"*ab*", "*bc*"};
    StarsAreSubstrings(globs);
    assert Texts(globs, keys, Prefix) == {} && ReversedTexts(globs, keys) == {};
    assert Having(globs, keys, Exact, "abc") == {};
    assert Contains("abc", "ab") && "abc"[1..] == "bc" && Contains("abc", "bc");
    assert Parts(globs, keys, "abc") == keys;
  }

  lemma TwoSuffixes(globs: Globs)
    ensures Contenders(globs, {"a.b", "*.a.b"}, "a.b") == {"a.b", "*.a.b"}
  {
    var keys := {"a.b", "*.a.b"};
    DotsAreSuffixes(globs);
    assert Having(globs, keys, Exact, "a.b") == {};
    assert Having(globs, keys, Suffix, "a.b") == keys;
    InTexts(globs, keys, Suffix, "a.b");
    ReversedTwice("a.b");
    InReversedTexts(globs, keys, Reversed("a.b"));
    assert LongestPrefix(ReversedTexts(globs, keys), Reversed("a.b")) == Some(Reversed("a.b"));
  }

  /** The two orders of such a table. */
  lemma AmbiguousIsDecidedByOrder(globs: Globs, rules: Rules, end: string, loop: string)
    requires Ambiguous(globs, rules, end, loop)
    ensures IsOrder([end, loop], rules.Keys) && !Refused(globs, rules, [end, loop])
    ensures IsOrder([loop, end], rules.Keys) && Refused(globs, rules, [loop, end])
  {
    TwoOrders(rules, end, loop);
    TwoOrders(rules, loop, end);
    AmbiguousIsAccepted(globs, rules, end, loop);
    AmbiguousIsRefused(globs, rules, end, loop);
  }

  lemma TwoRules(globs: Globs, rules: Rules, end: string, loop: string, target: string)
    requires rules == map[end := CloakedName("x", false, 1, None), loop := CloakedName(target, false, 2, None)]
    requires end != loop && target != "" && Patterns(globs, {end, loop})
    requires Contenders(globs, {end, loop}, target) == {end, loop}
    ensures Ambiguous(globs, rules, end, loop)
  {
    assert rules.Keys == {end, loop};
  }

  /** Two substring rules that both occur in the target of one: one order accepts the table, the other refuses it. */
  lemma SubstringsAreDecidedByOrder(globs: Globs, rules: Rules)
    requires rules == map["*ab*" := CloakedName("x", false, 1, None), "*bc*" := CloakedName("abc", false, 2, None)]
    ensures Patterns(globs, rules.Keys)
    ensures IsOrder(["*ab*", "*bc*"], rules.Keys) && !Refused(globs, rules, ["*ab*", "*bc*"])
    ensures IsOrder(["*bc*", "*ab*"], rules.Keys) && Refused(globs, rules, ["*bc*", "*ab*"])
  {
    StarsAreSubstrings(globs);
    TwoSubstrings(globs);
    assert "*ab*"[1] != "*bc*"[1];
    TwoRules(globs, rules, "*ab*", "*bc*", "abc");
    AmbiguousIsDecidedByOrder(globs, rules, "*ab*", "*bc*");
  }

  /** Two rules that are stored as one suffix, one of them with that suffix for its target: again the order decides. */
  lemma SuffixesAreDecidedByOrder(globs: Globs, rules: Rules)
    requires rules == map["a.b" := CloakedName("x", false, 1, None), "*.a.b" := CloakedName("a.b", false, 2, None)]
    ensures Patterns(globs, rules.Keys)
    ensures IsOrder(["a.b", "*.a.b"], rules.Keys) && !Refused(globs, rules, ["a.b", "*.a.b"])
    ensures IsOrder(["*.a.b", "a.b"], rules.Keys) && Refused(globs, rules, ["*.a.b", "a.b"])
  {
    DotsAreSuffixes(globs);
    TwoSuffixes(globs);
    TwoRules(globs, rules, "a.b", "*.a.b", "a.b");
    AmbiguousIsDecidedByOrder(globs, rules, "a.b", "*.a.b");
  }

  // --------------------------------- loading as a whole

  ghost predicate AllStored(globs: Globs, order: seq<string>) {
    forall k :: k in order ==> Stored(globs, k).Some?
  }

  lemma OrderAppend(order: seq<string>, keys: set<string>, k: string)
    requires IsOrder(order, keys) && k !in keys
    ensures IsOrder(order + [k], keys + {k})
  {
    ElementsAppend(order, k);
    assert forall i :: 0 <= i < |order| ==> order[i] in Elements(order);
  }

  lemma FilledAppend(globs: Globs, order: seq<string>, k: string)
    requires AllStored(globs, order) && Stored(globs, k).Some?
    ensures AllStored(globs, order + [k])
    ensures
      var (kind, term) := Stored(globs, k).value;
      Filled(globs, order + [k]) == Added(Filled(globs, order), kind, term, k)
  {
    assert (order + [k])[..|order|] == order;
  }

  method AddRule(globs: Globs, matcher: PatternMatcher<string>, k: string, ghost order: seq<string>) returns (ok: bool)
    requires AllStored(globs, order) && matcher.View() == Filled(globs, order)
    modifies matcher
    ensures ok <==> Stored(globs, k).Some?
    ensures ok ==> AllStored(globs, order + [k]) && matcher.View() == Filled(globs, order + [k])
  {
    ok := matcher.Add(globs, k, k);
    if ok {
      FilledAppend(globs, order, k);
    }
  }

  /** Fills the matcher while ranging over the table, in whatever order the map yields. */
  method FillMatcher(globs: Globs, rules: Rules)
    returns (matcher: PatternMatcher<string>, ok: bool, ghost order: seq<string>)
    ensures fresh(matcher)
    ensures ok <==> forall k :: k in rules ==> Stored(globs, k).Some?
    ensures ok ==> IsOrder(order, rules.Keys) && AllStored(globs, order) && matcher.View() == Filled(globs, order)
  {
    matcher := new PatternMatcher();
    ok, order := true, [];
    var todo, done := rules.Keys, {};
    while todo != {}
      invariant fresh(matcher) && todo !! done && todo + done == rules.Keys
      invariant IsOrder(order, done) && AllStored(globs, order) && matcher.View() == Filled(globs, order)
      decreases |todo|
    {
      var k :| k in todo;
      ok := AddRule(globs, matcher, k, order);
      if !ok {
        return;
      }
      OrderAppend(order, done, k);
      order, todo, done := order + [k], todo - {k}, done + {k};
    }
    assert forall k :: k in rules ==> k in Elements(order);
  }

  datatype Outcome = Crashed | Malformed | Refusal(e: Recursive) | Accepted

  /** Loads a file: the table, the matcher, and the verdict. */
  method Load(lexer: Lexer, globs: Globs, lines: seq<Line>) returns (r: Outcome, rules: Rules)
    requires LowerArpa(lexer)
    ensures r.Crashed? <==> exists i :: 0 <= i < |lines| && Breaks(lexer, lines, i)
    ensures !r.Crashed? ==> forall k :: Records(lexer, lines, |lines|, rules, k)
    ensures !r.Crashed? ==> (r.Malformed? <==> !Patterns(globs, rules.Keys))
    ensures r.Accepted? ==> AcceptedBySome(globs, rules) && !HasTrap(globs, rules)
    ensures r.Refusal? ==> exists order :: IsOrder(order, rules.Keys) && RefusedFor(globs, rules, order, r.e)
    ensures r.Refusal? ==> HasCycle(globs, rules)
  {
    var table := LoadRules(lexer, lines);
    if table.None? {
      return Crashed, map[];
    }
    rules := table.value;
    var matcher, ok, order := FillMatcher(globs, rules);
    if !ok {
      return Malformed, rules;
    }
    var verdict := Judge(globs, rules, matcher, order);
    AcceptedBySomeIff(globs, rules);
    return if verdict.None? then Accepted else Refusal(verdict.value), rules;
  }

  /** The verdict on a table whose matcher was filled in some order. */
  method Judge(globs: Globs, rules: Rules, matcher: PatternMatcher<string>, ghost order: seq<string>)
    returns (r: Option<Recursive>)
    requires Patterns(globs, rules.Keys) && IsOrder(order, rules.Keys)
    requires AllStored(globs, order) && matcher.View() == Filled(globs, order)
    ensures r.None? <==> !Refused(globs, rules, order)
    ensures r.Some? ==> RefusedFor(globs, rules, order, r.value) && HasCycle(globs, rules)
  {
    var stores := matcher.View();
    var eval: Matcher := name =>
      match Answer(globs, stores, name)
      case None => None
      case Some(hit) => Some(Hit(hit.0, hit.1));
    SameMatcher(globs, rules, order, eval);
    r := DetectCloakingLoops(rules, eval);
    if r.Some? {
      RefusalHasCycle(globs, rules, order);
    }
  }

  /** The table is refused, and for this rule and pattern. */
  ghost predicate RefusedFor(globs: Globs, rules: Rules, order: seq<string>, e: Recursive)
    requires Patterns(globs, rules.Keys) && IsOrder(order, rules.Keys)
  {
    OrderedIsFilled(globs, rules, order);
    IsFirstOffender(rules, MatcherFor(globs, order), e)
  }

  /** Matchers that answer alike give the same verdict. */
  lemma SameMatcher(globs: Globs, rules: Rules, order: seq<string>, eval: Matcher)
    requires Patterns(globs, rules.Keys) && IsOrder(order, rules.Keys)
    requires forall name :: eval(name) == MatcherFor(globs, order)(name)
    ensures FilledFrom(eval, rules) && FilledFrom(MatcherFor(globs, order), rules)
    ensures forall k :: k in rules ==> (Endless(rules, eval, k) <==> Endless(rules, MatcherFor(globs, order), k))
    ensures forall e :: IsFirstOffender(rules, eval, e) ==> IsFirstOffender(rules, MatcherFor(globs, order), e)
  {
    var m := MatcherFor(globs, order);
    OrderedIsFilled(globs, rules, order);
    assert LeadAlike(rules, eval, m);
    forall k | k in rules
      ensures Endless(rules, eval, k) <==> Endless(rules, m, k)
    {
      SameEndless(rules, eval, m, k);
    }
    forall e | IsFirstOffender(rules, eval, e)
      ensures IsFirstOffender(rules, m, e)
    {
      SameLoop(rules, eval, m, e.rule, e.pattern);
    }
  }
}
