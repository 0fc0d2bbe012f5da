/** Domain suffix rules, found by the longest prefix of the reversed name. */
module DomainRules {
  import opened Common

  // ------------------------------------------------------------- reversal

  function Reversed(s: string): (r: string)
    ensures |r| == |s| && forall i :: 0 <= i < |s| ==> r[i] == s[|s| - 1 - i]
  {
    seq(|s|, i requires 0 <= i < |s| => s[|s| - 1 - i])
  }

  lemma ReversedTwice(s: string)
    ensures Reversed(Reversed(s)) == s
  {
  }

  lemma ReversedApart(a: string, b: string)
    ensures Reversed(a + b) == Reversed(b) + Reversed(a)
  {
  }

  method StringReverse(s: string) returns (reversed: string)
    ensures reversed == Reversed(s)
  {
    var r := new char[|s|](i requires 0 <= i < |s| => s[i]);
    var i, j := 0, |s| - 1;
    while i < |s| / 2
      invariant 0 <= i <= |s| / 2 && j == |s| - 1 - i
      invariant forall k :: 0 <= k < i ==> r[k] == s[|s| - 1 - k] && r[|s| - 1 - k] == s[k]
      invariant forall k :: i <= k <= j ==> r[k] == s[k]
    {
      r[i], r[j] := r[j], r[i];
      i, j := i + 1, j - 1;
    }
    forall k | 0 <= k < |s|
      ensures r[k] == Reversed(s)[k]
    {
      assert k > j ==> r[|s| - 1 - (|s| - 1 - k)] == s[|s| - 1 - k];
    }
    return r[..];
  }

  // ------------------------------------------------------------- labels

  /** The name is the rule, or ends with a dot and the rule. */
  predicate LabelSuffix(rule: string, name: string) {
    || name == rule
    || (|rule| < |name| && name[|name| - |rule|..] == rule && name[|name| - |rule| - 1] == '.')
  }

  /** The same on reversed strings. */
  predicate LabelPrefix(key: string, s: string) {
    key <= s && (|key| == |s| || s[|key|] == '.')
  }

  lemma LabelPrefixIsSuffix(rule: string, name: string)
    ensures LabelPrefix(Reversed(rule), Reversed(name)) <==> LabelSuffix(rule, name)
  {
    ReversedTwice(rule);
    ReversedTwice(name);
    if |rule| <= |name| {
      var at := |name| - |rule|;
      ReversedApart(name[..at], name[at..]);
      assert name[..at] + name[at..] == name;
      assert Reversed(name)[..|rule|] == Reversed(name[at..]);
      ReversedTwice(name[at..]);
      assert name[at..] == rule <==> Reversed(rule) <= Reversed(name);
    }
  }

  // ------------------------------------------------------------- longest prefix

  lemma ShorterPrefixes(keys: set<string>, s: string)
    requires s !in keys && s != ""
    ensures forall k :: k in keys ==> (k <= s <==> k <= s[..|s| - 1])
  {
    forall k | k in keys && k <= s
      ensures k <= s[..|s| - 1]
    {
      assert |k| == |s| ==> k == s;
    }
  }

  /** The longest key that starts the string: what the trie promises. */
  function LongestPrefix(keys: set<string>, s: string): (r: Option<string>)
    ensures r.Some? ==> r.value in keys && r.value <= s
    ensures r.Some? ==> forall k :: k in keys && k <= s ==> |k| <= |r.value|
    ensures r.None? ==> forall k :: k in keys ==> !(k <= s)
    decreases |s|
  {
    if s in keys then Some(s)
    else if s == "" then None
    else
      ShorterPrefixes(keys, s);
      LongestPrefix(keys, s[..|s| - 1])
  }

  /** The longest key that starts the string, kept only if it ends there at a label. */
  function Aligned(keys: set<string>, s: string): (r: Option<string>)
    ensures r.Some? ==> r.value in keys && LabelPrefix(r.value, s)
    ensures r.Some? ==> forall k :: k in keys && LabelPrefix(k, s) ==> |k| <= |r.value|
  {
    match LongestPrefix(keys, s)
    case None => None
    case Some(m) => if |m| == |s| || s[|m|] == '.' then Some(m) else None
  }

  /** No rule is a label-descendant of another. */
  ghost predicate Flat(keys: set<string>) {
    forall a, b :: a in keys && b in keys && LabelPrefix(a, b) ==> a == b
  }

  /** In a flat set the longest key is aligned as soon as any key is. */
  lemma FlatIsComplete(keys: set<string>, s: string, key: string)
    requires Flat(keys) && key in keys && LabelPrefix(key, s)
    ensures Aligned(keys, s) == Some(key)
  {
  }

  /** A key with an ancestor, and as long as any such key. */
  ghost predicate LongestNested(keys: set<string>, a: string, b: string) {
    && a in keys && b in keys && a != b && LabelPrefix(a, b)
    && forall c :: c in keys && a != c && LabelPrefix(a, c) ==> |c| <= |b|
  }

  lemma {:induction false} LongestNestedExists(keys: set<string>, a: string, b: string, rest: set<string>)
    returns (c: string)
    requires a in keys && b in keys && a != b && LabelPrefix(a, b)
    requires rest <= keys
    requires forall d :: d in keys - rest && a != d && LabelPrefix(a, d) ==> |d| <= |b|
    ensures LongestNested(keys, a, c)
    decreases rest
  {
    if rest == {} {
      c := b;
    } else {
      var d :| d in rest;
      var b' := if a != d && LabelPrefix(a, d) && |d| > |b| then d else b;
      c := LongestNestedExists(keys, a, b', rest - {d});
    }
  }

  /** A key that reaches past the longest nested one is not on any string that continues it. */
  lemma NestedStops(keys: set<string>, a: string, b: string, s: string, k: string)
    requires LongestNested(keys, a, b) && b <= s && k in keys && k <= s
    ensures |k| <= |b| && LabelPrefix(a, s)
  {
  }

  /** A string that leaves the longest nested key without a dot is missed, though it is under the ancestor. */
  lemma LongestStops(keys: set<string>, a: string, b: string, s: string)
    requires LongestNested(keys, a, b) && b < s && s[|b|] != '.'
    ensures LongestPrefix(keys, s) == Some(b) && Aligned(keys, s) == None && LabelPrefix(a, s)
  {
    var m := LongestPrefix(keys, s).value;
    NestedStops(keys, a, b, s, m);
    assert m == s[..|m|] && b == s[..|b|];
  }

  // ------------------------------------------------------------- undelegated names

  ghost function ReversedSet(rules: seq<string>): set<string> {
    set i | 0 <= i < |rules| :: Reversed(rules[i])
  }

  /** Some rule is the name or an ancestor of it. */
  ghost predicate Listed(rules: seq<string>, name: string) {
    exists i :: 0 <= i < |rules| && LabelSuffix(rules[i], name)
  }

  class PluginBlockUndelegated {
    var suffixes: set<string>

    method Init(rules: seq<string>)
      modifies this
      ensures suffixes == ReversedSet(rules)
    {
      var keys := {};
      for i := 0 to |rules|
        invariant keys == ReversedSet(rules[..i])
      {
        var pattern := StringReverse(rules[i]);
        keys := keys + {pattern};
        ReversedSetAppend(rules, i);
      }
      assert rules[..|rules|] == rules;
      suffixes := keys;
    }

    /** The rule the name is blocked for. */
    method Eval(qName: string) returns (r: Option<string>)
      ensures r == Aligned(suffixes, Reversed(qName))
    {
      var revQname := StringReverse(qName);
      var found := LongestPrefix(suffixes, revQname);
      if found.None? {
        return None;
      }
      if |found.value| == |revQname| || revQname[|found.value|] == '.' {
        return found;
      }
      return None;
    }
  }

  lemma ReversedSetAppend(rules: seq<string>, i: nat)
    requires i < |rules|
    ensures ReversedSet(rules[..i + 1]) == ReversedSet(rules[..i]) + {Reversed(rules[i])}
  {
  }

  /** Only names under a rule are blocked, and the rule found is the longest one. */
  lemma UndelegatedIsSound(rules: seq<string>, name: string)
    requires Aligned(ReversedSet(rules), Reversed(name)).Some?
    ensures Listed(rules, name)
    ensures forall i :: 0 <= i < |rules| && LabelSuffix(rules[i], name) ==>
      |rules[i]| <= |Aligned(ReversedSet(rules), Reversed(name)).value|
  {
    var i :| 0 <= i < |rules| && Reversed(rules[i]) == Aligned(ReversedSet(rules), Reversed(name)).value;
    LabelPrefixIsSuffix(rules[i], name);
    forall j | 0 <= j < |rules| && LabelSuffix(rules[j], name)
      ensures |rules[j]| <= |rules[i]|
    {
      LabelPrefixIsSuffix(rules[j], name);
      assert Reversed(rules[j]) in ReversedSet(rules);
    }
  }

  /** Every listed name is blocked. */
  ghost predicate UndelegatedComplete(rules: seq<string>) {
    forall name :: Listed(rules, name) ==> Aligned(ReversedSet(rules), Reversed(name)).Some?
  }

  /** No rule is a proper label-descendant of another. */
  ghost predicate NoNesting(rules: seq<string>) {
    forall i, j :: 0 <= i < |rules| && 0 <= j < |rules| && LabelSuffix(rules[i], rules[j]) ==> rules[i] == rules[j]
  }

  lemma NoNestingIsFlat(rules: seq<string>)
    ensures NoNesting(rules) <==> Flat(ReversedSet(rules))
  {
    forall i, j | 0 <= i < |rules| && 0 <= j < |rules|
      ensures LabelSuffix(rules[i], rules[j]) <==> LabelPrefix(Reversed(rules[i]), Reversed(rules[j]))
      ensures rules[i] == rules[j] <==> Reversed(rules[i]) == Reversed(rules[j])
    {
      LabelPrefixIsSuffix(rules[i], rules[j]);
      ReversedTwice(rules[i]);
      ReversedTwice(rules[j]);
    }
    if NoNesting(rules) {
      forall a, b | a in ReversedSet(rules) && b in ReversedSet(rules) && LabelPrefix(a, b)
        ensures a == b
      {
        var i :| 0 <= i < |rules| && a == Reversed(rules[i]);
        var j :| 0 <= j < |rules| && b == Reversed(rules[j]);
      }
    }
    if Flat(ReversedSet(rules)) {
      forall i, j | 0 <= i < |rules| && 0 <= j < |rules| && LabelSuffix(rules[i], rules[j])
        ensures rules[i] == rules[j]
      {
        assert Reversed(rules[i]) in ReversedSet(rules) && Reversed(rules[j]) in ReversedSet(rules);
      }
    }
  }

  lemma NestedExists(keys: set<string>) returns (a: string, b: string)
    requires !Flat(keys)
    ensures LongestNested(keys, a, b)
  {
    var b' :| exists k :: k in keys && b' in keys && LabelPrefix(k, b') && k != b';
    a :| a in keys && LabelPrefix(a, b') && a != b';
    b := LongestNestedExists(keys, a, b', keys);
  }

  lemma UndelegatedCompleteIff(rules: seq<string>)
    ensures UndelegatedComplete(rules) <==> NoNesting(rules)
  {
    NoNestingIsFlat(rules);
    var keys := ReversedSet(rules);
    if Flat(keys) {
      forall name | Listed(rules, name)
        ensures Aligned(keys, Reversed(name)).Some?
      {
        var i :| 0 <= i < |rules| && LabelSuffix(rules[i], name);
        LabelPrefixIsSuffix(rules[i], name);
        FlatIsComplete(keys, Reversed(name), Reversed(rules[i]));
      }
    } else {
      var a, b := NestedExists(keys);
      UnderAncestor(rules, a, Reversed(b + "x"));
      ReversedTwice(b + "x");
      LongestStops(keys, a, b, b + "x");
      assert Listed(rules, Reversed(b + "x"));
    }
  }

  /** A reversed rule that is a label prefix of a reversed name lists the name. */
  lemma UnderAncestor(rules: seq<string>, key: string, name: string)
    requires key in ReversedSet(rules)
    ensures LabelPrefix(key, Reversed(name)) ==> Listed(rules, name)
  {
    var i :| 0 <= i < |rules| && key == Reversed(rules[i]);
    LabelPrefixIsSuffix(rules[i], name);
  }

  // ------------------------------------------------------------- the matcher's suffix branch

  /** Where the last dot is, or -1. */
  function LastDot(s: string): (r: int)
    ensures -1 <= r < |s| && (r >= 0 ==> s[r] == '.') && forall i :: r < i < |s| ==> s[i] != '.'
  {
    if s == "" then -1 else if s[|s| - 1] == '.' then |s| - 1 else LastDot(s[..|s| - 1])
  }

  /** The key found for a reversed name, with the second lookup that leaves off its last label. */
  function SuffixKey(keys: set<string>, s: string): Option<string> {
    match LongestPrefix(keys, s)
    case None => None
    case Some(m) =>
      if |m| == |s| || s[|m|] == '.' then Some(m)
      else
        var i := LastDot(s);
        if i > 0 then Aligned(keys, s[..i]) else None
  }

  /** The suffix branch's answer for a name, and for no name under two characters. */
  function Matched(keys: set<string>, name: string): Option<string> {
    if |name| < 2 then None else SuffixKey(keys, Reversed(name))
  }

  /** A key that is found is a label prefix, and the longest one, by either lookup. */
  lemma SuffixKeyIsLongest(keys: set<string>, s: string)
    requires SuffixKey(keys, s).Some?
    ensures var m := SuffixKey(keys, s).value; m in keys && LabelPrefix(m, s)
    ensures forall k :: k in keys && LabelPrefix(k, s) ==> |k| <= |SuffixKey(keys, s).value|
  {
  }

  /** No key that starts the string is longer than `k`. */
  ghost predicate NoneLonger(keys: set<string>, k: string, s: string) {
    forall j :: j in keys && j <= s ==> |j| <= |k|
  }

  /** `k` is the longest key that is a label prefix of the string. */
  ghost predicate IsLongestLabel(keys: set<string>, k: string, s: string) {
    k in keys && LabelPrefix(k, s) && forall j :: j in keys && LabelPrefix(j, s) ==> |j| <= |k|
  }

  /**
    The longest label prefix is found exactly when no longer key starts the
    reversed name, or none starts what is left of it without its last label.
   */
  lemma SuffixKeyIff(keys: set<string>, s: string, k: string)
    requires IsLongestLabel(keys, k, s)
    ensures SuffixKey(keys, s) == Some(k) <==>
      NoneLonger(keys, k, s) || (0 < LastDot(s) && |k| <= LastDot(s) && NoneLonger(keys, k, s[..LastDot(s)]))
    ensures SuffixKey(keys, s) != Some(k) ==> SuffixKey(keys, s) == None
  {
    var m, i := LongestPrefix(keys, s).value, LastDot(s);
    assert k == s[..|k|] && m == s[..|m|];
    if SuffixKey(keys, s).Some? {
      SuffixKeyIsLongest(keys, s);
      assert SuffixKey(keys, s).value == s[..|SuffixKey(keys, s).value|];
    }
    if 0 < i && |k| <= i {
      assert LabelPrefix(k, s[..i]);
    }
  }

  /** The block of undelegated names has the first lookup only. */
  lemma AlignedIff(keys: set<string>, s: string, k: string)
    requires IsLongestLabel(keys, k, s)
    ensures Aligned(keys, s) == (if NoneLonger(keys, k, s) then Some(k) else None)
  {
    var m := LongestPrefix(keys, s).value;
    assert k == s[..|k|] && m == s[..|m|];
  }

  /** For fooexample.com the longer rule example.com hides com from the first lookup, and the second finds it. */
  lemma SecondLookupFinds()
    ensures SuffixKey({"moc", "moc.elpmaxe"}, "moc.elpmaxeoof") == Some("moc")
    ensures Aligned({"moc", "moc.elpmaxe"}, "moc.elpmaxeoof") == None
  {
    var keys, s := {"moc", "moc.elpmaxe"}, "moc.elpmaxeoof";
    assert s[..11] == "moc.elpmaxe" && s[11] == 'o' && s[..3] == "moc" && s[3] == '.';
    assert LastDot(s) == 3;
    assert IsLongestLabel(keys, "moc", s);
    SuffixKeyIff(keys, s, "moc");
    AlignedIff(keys, s, "moc");
  }

  /** Only names under a rule are matched, and by the longest such rule. */
  lemma MatcherIsSound(rules: seq<string>, name: string)
    requires Matched(ReversedSet(rules), name).Some?
    ensures Listed(rules, name)
    ensures forall i :: 0 <= i < |rules| && LabelSuffix(rules[i], name) ==>
      |rules[i]| <= |Matched(ReversedSet(rules), name).value|
  {
    var keys := ReversedSet(rules);
    SuffixKeyIsLongest(keys, Reversed(name));
    UnderAncestor(rules, Matched(keys, name).value, name);
    forall i | 0 <= i < |rules| && LabelSuffix(rules[i], name)
      ensures |rules[i]| <= |Matched(keys, name).value|
    {
      LabelPrefixIsSuffix(rules[i], name);
      assert Reversed(rules[i]) in keys;
    }
  }

  /** Every listed name of two characters or more is matched. */
  ghost predicate MatcherComplete(rules: seq<string>) {
    forall name :: |name| >= 2 && Listed(rules, name) ==> Matched(ReversedSet(rules), name).Some?
  }

  /** A name that leaves the longest nested rule in the middle of a label is missed by both lookups. */
  lemma MatcherMisses(keys: set<string>, a: string, b: string, s: string)
    requires LongestNested(keys, a, b) && b < s && s[|b|] != '.' && LastDot(s) > |b|
    ensures SuffixKey(keys, s).None? && LabelPrefix(a, s)
  {
    LongestStops(keys, a, b, s);
    LongestStops(keys, a, b, s[..LastDot(s)]);
  }

  lemma LeaveMidLabel(b: string) returns (s: string)
    ensures b < s && s[|b|] != '.' && LastDot(s) > |b| && |s| >= 2
  {
    s := b + "x.y";
    assert s[|b| + 1] == '.' && s[|b| + 2] == 'y';
  }

  /** With nested rules there is a listed name that is missed. */
  lemma NestedMisses(rules: seq<string>) returns (name: string)
    requires !Flat(ReversedSet(rules))
    ensures |name| >= 2 && Listed(rules, name) && Matched(ReversedSet(rules), name).None?
  {
    var a, b := NestedExists(ReversedSet(rules));
    var s := LeaveMidLabel(b);
    name := Reversed(s);
    ReversedTwice(s);
    MatcherMisses(ReversedSet(rules), a, b, s);
    UnderAncestor(rules, a, name);
  }

  lemma AlignedIsMatched(keys: set<string>, name: string)
    requires |name| >= 2 && Aligned(keys, Reversed(name)).Some?
    ensures Matched(keys, name) == Aligned(keys, Reversed(name))
  {
  }

  lemma MatcherCompleteIff(rules: seq<string>)
    ensures MatcherComplete(rules) <==> NoNesting(rules)
  {
    NoNestingIsFlat(rules);
    if NoNesting(rules) {
      UndelegatedCompleteIff(rules);
      forall name | |name| >= 2 && Listed(rules, name)
        ensures Matched(ReversedSet(rules), name).Some?
      {
        AlignedIsMatched(ReversedSet(rules), name);
      }
    } else {
      var name := NestedMisses(rules);
    }
  }

  lemma ExampleReversed()
    ensures Reversed("com") == "moc" && Reversed("example.com") == "moc.elpmaxe"
    ensures Reversed("a.fooexample.com") == "moc.elpmaxeoof.a"
  {
  }

  lemma ExampleNested()
    ensures LongestNested({"moc", "moc.elpmaxe"}, "moc", "moc.elpmaxe")
    ensures "moc.elpmaxe" < "moc.elpmaxeoof.a" && LastDot("moc.elpmaxeoof.a") == 14
  {
  }

  /** With `com` and `example.com`, a name under `com` is missed. */
  lemma NestedRulesMissNames()
    ensures var rules := ["com", "example.com"];
      Listed(rules, "a.fooexample.com") && Matched(ReversedSet(rules), "a.fooexample.com").None?
  {
    var rules := ["com", "example.com"];
    ExampleReversed();
    ExampleNested();
    assert rules[0] == "com" && rules[1] == "example.com";
    assert ReversedSet(rules) == {"moc", "moc.elpmaxe"};
    MatcherMisses(ReversedSet(rules), "moc", "moc.elpmaxe", "moc.elpmaxeoof.a");
    UnderAncestor(rules, "moc", "a.fooexample.com");
  }

  /** A name of one character is missed even by the rule that is the name. */
  lemma OneCharacterIsMissed(rules: seq<string>, name: string)
    requires |name| < 2 && name in rules
    ensures Listed(rules, name) && Matched(ReversedSet(rules), name).None?
    ensures NoNesting(rules) ==> Aligned(ReversedSet(rules), Reversed(name)).Some?
  {
  }
}
