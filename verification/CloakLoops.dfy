/**
  Cloaking rules: the chains formed by name targets, and the detection of
  resolution loops.
 */
module CloakLoops {
  import opened Common

  /** A cloaking rule, identified by the pattern that keys it; of its addresses the first IPv6 one is kept, reversed. */
  datatype CloakedName = CloakedName(target: string, isIP: bool, lineNo: nat, firstV6: Option<string>)
  {
    predicate FollowsTarget() {
      !isIP && target != ""
    }
  }

  type Rules = map<string, CloakedName>

  /** What the pattern matcher reports: the pattern text, and the key of the rule it belongs to. */
  datatype Hit = Hit(pattern: string, rule: string)

  type Matcher = string -> Option<Hit>

  /** The matcher only ever answers with rules of the table it was filled from. */
  ghost predicate FilledFrom(matcher: Matcher, rules: Rules) {
    forall name :: matcher(name).Some? ==> matcher(name).value.rule in rules
  }

  // ---------------------------------------------------------------- chains

  /** The rule that resolution goes to after `k`, if it follows a name any further. */
  function Next(rules: Rules, matcher: Matcher, k: string): (n: Option<string>)
    requires FilledFrom(matcher, rules) && k in rules
    ensures n.Some? ==> n.value in rules
  {
    if !rules[k].FollowsTarget() then None
    else
      var hit := matcher(rules[k].target);
      if hit.None? || !rules[hit.value.rule].FollowsTarget() then None else Some(hit.value.rule)
  }

  /**
    Resolution goes on from one rule to another exactly when neither has an
    address, both have a target, and the matcher answers the first one's target
    with the second.
   */
  lemma NextIff(rules: Rules, matcher: Matcher, j: string, k: string)
    requires FilledFrom(matcher, rules) && j in rules && k in rules
    ensures Next(rules, matcher, j) == Some(k) <==>
      && !rules[j].isIP && rules[j].target != "" && !rules[k].isIP && rules[k].target != ""
      && matcher(rules[j].target).Some? && matcher(rules[j].target).value.rule == k
  {
  }

  /** The rule reached from `k` after `n` steps; None once the chain has ended. */
  ghost function Nth(rules: Rules, matcher: Matcher, k: string, n: nat): (r: Option<string>)
    requires FilledFrom(matcher, rules) && k in rules
    ensures r.Some? ==> r.value in rules
  {
    if n == 0 then Some(k)
    else
      var prev := Nth(rules, matcher, k, n - 1);
      if prev.None? then None else Next(rules, matcher, prev.value)
  }

  /** The chain of targets starting at `k` never ends. */
  ghost predicate Endless(rules: Rules, matcher: Matcher, k: string)
    requires FilledFrom(matcher, rules) && k in rules
  {
    forall n: nat :: Nth(rules, matcher, k, n).Some?
  }

  lemma {:induction false} NthPrefix(rules: Rules, matcher: Matcher, k: string, m: nat, n: nat)
    requires FilledFrom(matcher, rules) && k in rules
    requires m <= n && Nth(rules, matcher, k, n).Some?
    ensures Nth(rules, matcher, k, m).Some?
  {
    if m == n {
    } else {
      NthPrefix(rules, matcher, k, m, n - 1);
    }
  }

  /** From equal rules the chains continue equally. */
  lemma {:induction false} NthShift(rules: Rules, matcher: Matcher, k: string, i: nat, j: nat, d: nat)
    requires FilledFrom(matcher, rules) && k in rules
    requires Nth(rules, matcher, k, i) == Nth(rules, matcher, k, j)
    ensures Nth(rules, matcher, k, i + d) == Nth(rules, matcher, k, j + d)
  {
    if d == 0 {
    } else {
      NthShift(rules, matcher, k, i, j, d - 1);
    }
  }

  /** A chain that comes back to a rule goes on for ever. */
  lemma {:induction false} RevisitIsEndless(rules: Rules, matcher: Matcher, k: string, i: nat, j: nat, n: nat)
    requires FilledFrom(matcher, rules) && k in rules
    requires i < j && Nth(rules, matcher, k, j).Some?
    requires Nth(rules, matcher, k, i) == Nth(rules, matcher, k, j)
    ensures Nth(rules, matcher, k, n).Some?
  {
    if n <= j {
      NthPrefix(rules, matcher, k, n, j);
    } else {
      NthShift(rules, matcher, k, i, j, n - j);
      RevisitIsEndless(rules, matcher, k, i, j, n - (j - i));
    }
  }

  /** The rules met along the chain of `k`, in order and each once. */
  ghost predicate IsTrail(rules: Rules, matcher: Matcher, k: string, trail: seq<string>)
    requires FilledFrom(matcher, rules) && k in rules
  {
    && trail != [] && trail[0] == k
    && (forall i :: 0 <= i < |trail| ==> trail[i] in rules)
    && (forall i :: 0 < i < |trail| ==> Next(rules, matcher, trail[i - 1]) == Some(trail[i]))
    && (forall i, j :: 0 <= i < j < |trail| ==> trail[i] != trail[j])
  }

  /** A trail whose last target leads back into the trail. */
  ghost predicate IsClosedTrail(rules: Rules, matcher: Matcher, k: string, trail: seq<string>)
    requires FilledFrom(matcher, rules) && k in rules
  {
    && IsTrail(rules, matcher, k, trail)
    && Next(rules, matcher, trail[|trail| - 1]).Some?
    && Next(rules, matcher, trail[|trail| - 1]).value in trail
  }

  lemma {:induction false} TrailIsChain(rules: Rules, matcher: Matcher, k: string, trail: seq<string>, n: nat)
    requires FilledFrom(matcher, rules) && k in rules
    requires IsTrail(rules, matcher, k, trail) && n < |trail|
    ensures Nth(rules, matcher, k, n) == Some(trail[n])
  {
    if n == 0 {
    } else {
      TrailIsChain(rules, matcher, k, trail, n - 1);
    }
  }

  lemma ClosedTrailIsEndless(rules: Rules, matcher: Matcher, k: string, trail: seq<string>)
    requires FilledFrom(matcher, rules) && k in rules
    requires IsClosedTrail(rules, matcher, k, trail)
    ensures Endless(rules, matcher, k)
  {
    var n := |trail|;
    var back := Next(rules, matcher, trail[n - 1]).value;
    var i :| 0 <= i < n && trail[i] == back;
    TrailIsChain(rules, matcher, k, trail, i);
    TrailIsChain(rules, matcher, k, trail, n - 1);
    assert Nth(rules, matcher, k, n) == Some(back);
    forall m: nat
      ensures Nth(rules, matcher, k, m).Some?
    {
      RevisitIsEndless(rules, matcher, k, i, n, m);
    }
  }

  /** No trail outgrows a closed one. */
  lemma ClosedTrailIsLongest(rules: Rules, matcher: Matcher, k: string, a: seq<string>, b: seq<string>)
    requires FilledFrom(matcher, rules) && k in rules
    requires IsClosedTrail(rules, matcher, k, a) && IsTrail(rules, matcher, k, b)
    ensures |b| <= |a|
  {
    var i :| 0 <= i < |a| && a[i] == Next(rules, matcher, a[|a| - 1]).value;
    TrailIsChain(rules, matcher, k, a, i);
    TrailIsChain(rules, matcher, k, a, |a| - 1);
    assert Nth(rules, matcher, k, |a|) == Nth(rules, matcher, k, i);
    forall n: nat | n < |b|
      ensures Nth(rules, matcher, k, n) == Some(b[n])
    {
      TrailIsChain(rules, matcher, k, b, n);
    }
  }

  /** A rule has at most one closed trail, so the pattern it loops back to is determined. */
  lemma ClosedTrailIsUnique(rules: Rules, matcher: Matcher, k: string, a: seq<string>, b: seq<string>)
    requires FilledFrom(matcher, rules) && k in rules
    requires IsClosedTrail(rules, matcher, k, a) && IsClosedTrail(rules, matcher, k, b)
    ensures a == b
  {
    ClosedTrailIsLongest(rules, matcher, k, a, b);
    ClosedTrailIsLongest(rules, matcher, k, b, a);
    forall n: nat | n < |a|
      ensures a[n] == b[n]
    {
      TrailIsChain(rules, matcher, k, a, n);
      TrailIsChain(rules, matcher, k, b, n);
    }
  }

  /** Elements without repetition, drawn from a finite set, are no more than the set has. */
  lemma {:induction false} Pigeonhole<T>(s: seq<T>, pool: set<T>)
    requires forall i :: 0 <= i < |s| ==> s[i] in pool
    requires forall i, j :: 0 <= i < j < |s| ==> s[i] != s[j]
    ensures |s| <= |pool|
  {
    if s == [] {
    } else {
      var last := s[|s| - 1];
      Pigeonhole(s[..|s| - 1], pool - {last});
    }
  }

  /** The pattern by which the chain of `k` comes back on itself. */
  ghost predicate LoopsBackTo(rules: Rules, matcher: Matcher, k: string, pattern: string)
    requires FilledFrom(matcher, rules) && k in rules
  {
    exists trail :: IsClosedTrail(rules, matcher, k, trail) &&
                    pattern == matcher(rules[trail[|trail| - 1]].target).value.pattern
  }

  // ------------------------------------------------------- one chain's walk

  /**
    Follows the chain of one rule, remembering the rules met. The result is the
    pattern at which the chain closes, and it is None exactly when the chain ends.
   */
  method Walk(rules: Rules, matcher: Matcher, k: string) returns (loop: Option<string>)
    requires FilledFrom(matcher, rules) && k in rules && rules[k].FollowsTarget()
    ensures loop.Some? <==> Endless(rules, matcher, k)
    ensures loop.Some? ==> LoopsBackTo(rules, matcher, k, loop.value)
    ensures loop.None? ==> Nth(rules, matcher, k, |rules|).None?
  {
    var visited := {k};
    var current := k;
    ghost var trail := [k];
    while true
      invariant IsTrail(rules, matcher, k, trail) && trail[|trail| - 1] == current
      invariant rules[current].FollowsTarget()
      invariant visited == set x | x in trail
      invariant |trail| <= |rules|
      decreases |rules| - |trail|
    {
      TrailIsChain(rules, matcher, k, trail, |trail| - 1);
      var hit := matcher(rules[current].target);
      if hit.None? || !rules[hit.value.rule].FollowsTarget() {
        assert Nth(rules, matcher, k, |trail|).None?;
        if Nth(rules, matcher, k, |rules|).Some? {
          NthPrefix(rules, matcher, k, |trail|, |rules|);
        }
        return None;
      }
      var next := hit.value.rule;
      if next in visited {
        ClosedTrailIsEndless(rules, matcher, k, trail);
        return Some(hit.value.pattern);
      }
      visited := visited + {next};
      current := next;
      trail := trail + [next];
      Pigeonhole(trail, rules.Keys);
    }
  }

  // ------------------------------------------------------- the whole table

  /** The verdict on a table that is refused: the offending rule and the pattern it loops back to. */
  datatype Recursive = Recursive(rule: string, pattern: string)

  ghost predicate IsFirstOffender(rules: Rules, matcher: Matcher, e: Recursive)
    requires FilledFrom(matcher, rules)
  {
    && e.rule in rules && Endless(rules, matcher, e.rule)
    && LoopsBackTo(rules, matcher, e.rule, e.pattern)
    && forall k :: k in rules && Endless(rules, matcher, k) ==> rules[e.rule].lineNo <= rules[k].lineNo
  }

  lemma EndlessFollows(rules: Rules, matcher: Matcher, k: string)
    requires FilledFrom(matcher, rules) && k in rules
    ensures Endless(rules, matcher, k) ==> rules[k].FollowsTarget()
  {
    assert Nth(rules, matcher, k, 0) == Some(k);
    assert Nth(rules, matcher, k, 1) == Next(rules, matcher, k);
  }

  lemma OthersEndAtOnce(rules: Rules, matcher: Matcher, k: string)
    requires FilledFrom(matcher, rules) && k in rules && !rules[k].FollowsTarget()
    ensures Nth(rules, matcher, k, |rules|).None?
  {
    assert Nth(rules, matcher, k, 1).None?;
    Pigeonhole([k], rules.Keys);
    if Nth(rules, matcher, k, |rules|).Some? {
      NthPrefix(rules, matcher, k, 1, |rules|);
    }
  }

  /** Examines the rules in whatever order the map yields them. */
  method DetectCloakingLoops(rules: Rules, matcher: Matcher) returns (err: Option<Recursive>)
    requires FilledFrom(matcher, rules)
    ensures err.None? <==> forall k :: k in rules ==> !Endless(rules, matcher, k)
    ensures err.None? ==> forall k :: k in rules ==> Nth(rules, matcher, k, |rules|).None?
    ensures err.Some? ==> IsFirstOffender(rules, matcher, err.value)
  {
    err := None;
    var todo := rules.Keys;
    while todo != {}
      invariant todo <= rules.Keys
      invariant err.None? ==> forall k :: k in rules && k !in todo ==>
                                !Endless(rules, matcher, k) && Nth(rules, matcher, k, |rules|).None?
      invariant err.Some? ==>
                  && err.value.rule in rules && Endless(rules, matcher, err.value.rule)
                  && LoopsBackTo(rules, matcher, err.value.rule, err.value.pattern)
                  && forall k :: k in rules && k !in todo && Endless(rules, matcher, k) ==>
                       rules[err.value.rule].lineNo <= rules[k].lineNo
      decreases |todo|
    {
      var k :| k in todo;
      todo := todo - {k};
      if !rules[k].FollowsTarget() {
        EndlessFollows(rules, matcher, k);
        OthersEndAtOnce(rules, matcher, k);
        continue;
      }
      var loop := Walk(rules, matcher, k);
      if loop.Some? && (err.None? || rules[k].lineNo < rules[err.value.rule].lineNo) {
        err := Some(Recursive(k, loop.value));
      }
    }
  }

  ghost predicate FollowersOnDistinctLines(rules: Rules) {
    forall j, k :: j in rules && k in rules && rules[j].FollowsTarget() && rules[k].FollowsTarget() ==>
      (rules[j].lineNo == rules[k].lineNo ==> j == k)
  }

  /** With one rule per line the whole verdict, pattern included, is the same for every iteration order. */
  lemma VerdictIsDetermined(rules: Rules, matcher: Matcher, d: Recursive, e: Recursive)
    requires FilledFrom(matcher, rules) && FollowersOnDistinctLines(rules)
    requires IsFirstOffender(rules, matcher, d) && IsFirstOffender(rules, matcher, e)
    ensures d == e
  {
    assert rules[d.rule].lineNo <= rules[e.rule].lineNo <= rules[d.rule].lineNo;
    EndlessFollows(rules, matcher, d.rule);
    EndlessFollows(rules, matcher, e.rule);
    PatternIsDetermined(rules, matcher, d.rule, d.pattern, e.pattern);
  }

  lemma PatternIsDetermined(rules: Rules, matcher: Matcher, k: string, p: string, q: string)
    requires FilledFrom(matcher, rules) && k in rules
    requires LoopsBackTo(rules, matcher, k, p) && LoopsBackTo(rules, matcher, k, q)
    ensures p == q
  {
    var a :| IsClosedTrail(rules, matcher, k, a) && p == matcher(rules[a[|a| - 1]].target).value.pattern;
    var b :| IsClosedTrail(rules, matcher, k, b) && q == matcher(rules[b[|b| - 1]].target).value.pattern;
    ClosedTrailIsUnique(rules, matcher, k, a, b);
  }
}
