/**
  What each kind of pattern means, in terms of the names it answers for, and
  which kind answers when several could.
 */
module PatternMeaning {
  import opened Common
  import opened DomainRules
  import opened PatternMatching

  // ------------------------------------------------------------- letters

  /** An upper-case letter becomes the same letter in lower case, and nothing else changes. */
  lemma LoweredByLetter(s: string, i: nat)
    requires i < |s|
    ensures 'A' <= s[i] <= 'Z' ==>
      'a' <= Lowered(s)[i] <= 'z' && Lowered(s)[i] as int - 'a' as int == s[i] as int - 'A' as int
    ensures s[i] < 'A' || 'Z' < s[i] ==> Lowered(s)[i] == s[i]
  {
  }

  // ------------------------------------------------------------- the meaning of a pattern

  /** The part is somewhere in the name. */
  ghost predicate Occurs(name: string, part: string) {
    exists i, j :: 0 <= i <= j <= |name| && name[i..j] == part
  }

  lemma {:induction false} ContainsIffOccurs(name: string, part: string)
    ensures Contains(name, part) <==> Occurs(name, part)
  {
    if part <= name {
      assert name[0..|part|] == part;
    } else if name != "" {
      ContainsIffOccurs(name[1..], part);
      if Occurs(name[1..], part) {
        var i, j :| 0 <= i <= j <= |name[1..]| && name[1..][i..j] == part;
        assert name[i + 1..j + 1] == part;
      }
      if Occurs(name, part) {
        var i, j :| 0 <= i <= j <= |name| && name[i..j] == part;
        assert i > 0;
        assert name[1..][i - 1..j - 1] == part;
      }
    }
  }

  /** A text without the characters that make a glob. */
  predicate NoWildcards(x: string) {
    x != "" && forall i :: 0 <= i < |x| ==> x[i] != '*' && x[i] != '?' && x[i] != '['
  }

  lemma NoGlobIn(x: string, front: string, back: string)
    requires NoWildcards(x) && |front| <= 1 && |back| <= 1
    requires forall i :: 0 <= i < |front| ==> front[i] != '?' && front[i] != '['
    requires forall i :: 0 <= i < |back| ==> back[i] == '*'
    ensures !HasGlob(front + x + back)
  {
  }

  /** What a matcher with this one pattern answers. */
  function Alone(globs: Globs, pattern: string, name: string): Option<(string, string)> {
    Asked(globs, [pattern], name)
  }

  lemma FilledAlone(globs: Globs, pattern: string)
    requires Stored(globs, pattern).Some?
    ensures forall k :: k in [pattern] ==> Stored(globs, k).Some?
    ensures Filled(globs, [pattern]) ==
      Added(Nothing(), Stored(globs, pattern).value.0, Stored(globs, pattern).value.1, pattern)
  {
    assert [pattern][..0] == [];
  }

  lemma AnswerBySubstring(globs: Globs, part: string, pattern: string, name: string)
    ensures Answer(globs, Added(Nothing(), Substring, part, pattern), name) ==
      if |name| >= 2 && Contains(name, part) then Some(("*" + part + "*", pattern)) else None
  {
    var s := Added(Nothing(), Substring, part, pattern);
    assert s.substrings == [part] && s.exact == map[] && s.suffixes.Keys == {} && s.prefixes.Keys == {};
    FirstIs(s.substrings, p => Contains(name, p), if Contains(name, part) then 0 else 1);
    assert LongestPrefix({}, name) == None && SuffixKey({}, Reversed(name)) == None;
  }

  /** `*x*`: the names in which x occurs. */
  lemma SubstringMeans(globs: Globs, x: string, name: string)
    requires NoWildcards(x)
    ensures Alone(globs, "*" + x + "*", name) ==
      if |name| >= 2 && Occurs(name, Lowered(x)) then Some(("*" + Lowered(x) + "*", "*" + x + "*")) else None
  {
    var p := "*" + x + "*";
    NoGlobIn(x, "*", "*");
    assert p[1..|p| - 1] == x && |p| >= 3;
    FilledAlone(globs, p);
    ContainsIffOccurs(name, Lowered(x));
    AnswerBySubstring(globs, Lowered(x), p, name);
  }

  /** `x*`: the names that start with x. */
  lemma PrefixMeans(globs: Globs, x: string, name: string)
    requires NoWildcards(x)
    ensures Alone(globs, x + "*", name) ==
      if |name| >= 2 && Lowered(x) <= name then Some((Lowered(x) + "*", x + "*")) else None
  {
    var p := x + "*";
    NoGlobIn(x, "", "*");
    assert "" + x + "*" == p && p[..|p| - 1] == x;
    FilledAlone(globs, p);
    var s := Filled(globs, [p]);
    assert s.prefixes == map[Lowered(x) := p];
  }

  /** `=x`: the name x. */
  lemma ExactMeans(globs: Globs, x: string, name: string)
    requires NoWildcards(x)
    ensures Alone(globs, "=" + x, name) ==
      if |name| >= 2 && name == Lowered(x) then Some((name, "=" + x)) else None
  {
    var p := "=" + x;
    NoGlobIn(x, "=", "");
    assert "=" + x + "" == p && p[1..] == x;
    FilledAlone(globs, p);
    var s := Filled(globs, [p]);
    assert s.exact == map[Lowered(x) := p];
  }

  /** The forms of a suffix pattern. */
  ghost predicate IsSuffixForm(pattern: string, x: string) {
    pattern == x || pattern == "." + x || pattern == "*" + x || pattern == "*." + x
  }

  lemma PlainIsStored(globs: Globs, x: string)
    requires NoWildcards(x) && x[0] != '.' && x[0] != '='
    ensures Stored(globs, x) == Some((Suffix, Lowered(x)))
  {
    NoGlobIn(x, "", "");
    assert "" + x + "" == x;
  }

  lemma DottedIsStored(globs: Globs, x: string)
    requires NoWildcards(x)
    ensures Stored(globs, "." + x) == Some((Suffix, Lowered(x)))
  {
    NoGlobIn(x, ".", "");
    assert "." + x + "" == "." + x && ("." + x)[1..] == x;
  }

  lemma StarredIsStored(globs: Globs, x: string)
    requires NoWildcards(x) && x[0] != '.'
    ensures Stored(globs, "*" + x) == Some((Suffix, Lowered(x)))
  {
    NoGlobIn(x, "*", "");
    assert "*" + x + "" == "*" + x && ("*" + x)[1..] == x;
  }

  lemma StarDotIsStored(globs: Globs, x: string)
    requires NoWildcards(x)
    ensures Stored(globs, "*." + x) == Some((Suffix, Lowered(x)))
  {
    var p, dotted := "*." + x, "." + x;
    assert NoWildcards(dotted);
    NoGlobIn(dotted, "*", "");
    assert p == "*" + dotted + "";
    assert p[|p| - 1] == x[|x| - 1];
    assert p[1..] == dotted && dotted[1..] == x;
  }

  lemma SuffixFormIsStored(globs: Globs, pattern: string, x: string)
    requires NoWildcards(x) && x[0] != '.' && x[0] != '=' && IsSuffixForm(pattern, x)
    ensures Stored(globs, pattern) == Some((Suffix, Lowered(x)))
  {
    PlainIsStored(globs, x);
    DottedIsStored(globs, x);
    StarredIsStored(globs, x);
    StarDotIsStored(globs, x);
  }

  lemma OneSuffix(rule: string, name: string)
    requires |name| >= 2
    ensures SuffixKey({Reversed(rule)}, Reversed(name)) ==
      if LabelSuffix(rule, name) then Some(Reversed(rule)) else None
  {
    LabelPrefixIsSuffix(rule, name);
    if SuffixKey({Reversed(rule)}, Reversed(name)).Some? {
      SuffixKeyIsLongest({Reversed(rule)}, Reversed(name));
    }
  }

  lemma AnswerBySuffix(globs: Globs, rule: string, pattern: string, name: string)
    ensures Answer(globs, Added(Nothing(), Suffix, rule, pattern), name) ==
      if |name| >= 2 && LabelSuffix(rule, name) then Some(("*." + rule, pattern)) else None
  {
    var s := Added(Nothing(), Suffix, rule, pattern);
    assert s.suffixes == map[Reversed(rule) := pattern] && s.suffixes.Keys == {Reversed(rule)};
    ReversedTwice(rule);
    if |name| >= 2 {
      OneSuffix(rule, name);
      if !LabelSuffix(rule, name) {
        assert SuffixKey(s.suffixes.Keys, Reversed(name)) == None;
        assert s.prefixes.Keys == {} && LongestPrefix({}, name) == None;
        assert ListAnswer(globs, s, name) == None;
      }
    }
  }

  /** `x`, `.x`, `*x` and `*.x`: x and the names that end with a dot and x. */
  lemma SuffixMeans(globs: Globs, pattern: string, x: string, name: string)
    requires NoWildcards(x) && x[0] != '.' && x[0] != '=' && IsSuffixForm(pattern, x)
    ensures Alone(globs, pattern, name) ==
      if |name| >= 2 && (name == Lowered(x) || exists front :: name == front + "." + Lowered(x))
      then Some(("*." + Lowered(x), pattern)) else None
  {
    SuffixFormIsStored(globs, pattern, x);
    FilledAlone(globs, pattern);
    AnswerBySuffix(globs, Lowered(x), pattern, name);
    EndsIffLabelSuffix(Lowered(x), name);
  }

  lemma EndsIffLabelSuffix(rule: string, name: string)
    ensures LabelSuffix(rule, name) <==> name == rule || exists front :: name == front + "." + rule
  {
    if LabelSuffix(rule, name) && name != rule {
      var at := |name| - |rule| - 1;
      assert name == name[..at] + "." + rule;
    }
    if front :| name == front + "." + rule {
      assert name[|name| - |rule|..] == rule && name[|front|] == '.';
    }
  }

  /** A question mark or an opening bracket anywhere, or a star that is neither first nor last. */
  ghost predicate Globbing(pattern: string) {
    || '?' in pattern || '[' in pattern
    || exists i :: 0 < i < |pattern| - 1 && pattern[i] == '*'
  }

  lemma GlobbingIffGlob(pattern: string)
    ensures HasGlob(pattern) <==> Globbing(pattern)
  {
    if HasGlob(pattern) {
      var i :| 0 <= i < |pattern| && IsGlobAt(pattern, i);
      assert pattern[i] in pattern;
    }
    if '?' in pattern {
      var i :| 0 <= i < |pattern| && pattern[i] == '?';
      assert IsGlobAt(pattern, i);
    } else if '[' in pattern {
      var i :| 0 <= i < |pattern| && pattern[i] == '[';
      assert IsGlobAt(pattern, i);
    } else if i :| 0 < i < |pattern| - 1 && pattern[i] == '*' {
      assert IsGlobAt(pattern, i);
    }
  }

  /** A well-formed glob: the names it matches, in lower case. */
  lemma GlobMeans(globs: Globs, pattern: string, name: string)
    requires Globbing(pattern) && |pattern| >= 2 && globs.valid(pattern)
    ensures Alone(globs, pattern, name) ==
      if |name| >= 2 && globs.matches(Lowered(pattern), name) then Some((Lowered(pattern), pattern)) else None
  {
    GlobbingIffGlob(pattern);
    FilledAlone(globs, pattern);
    var s := Filled(globs, [pattern]);
    assert s.patterns == [Lowered(pattern)];
    FirstIs(s.patterns, glob => globs.matches(glob, name), if globs.matches(Lowered(pattern), name) then 0 else 1);
  }

  /** The patterns that are refused: those with nothing in them, and globs that are not well formed. */
  lemma RefusedIff(globs: Globs, pattern: string)
    ensures Stored(globs, pattern).None? <==>
      pattern in {"", "*", "**", "=", ".", "*.", "?", "["} || (Globbing(pattern) && !globs.valid(pattern))
  {
    GlobbingIffGlob(pattern);
    ShortGlobs(pattern);
    if !HasGlob(pattern) && Stored(globs, pattern).None? {
      assert |pattern| <= 2;
      assert pattern == "" || pattern == [pattern[0]] || pattern == [pattern[0], pattern[1]];
    }
  }

  lemma ShortGlobs(pattern: string)
    ensures HasGlob(pattern) && |pattern| < 2 ==> pattern == "?" || pattern == "["
    ensures pattern == "?" || pattern == "[" ==> HasGlob(pattern)
    ensures pattern in {"", "*", "**", "=", ".", "*."} ==> !HasGlob(pattern)
  {
    if pattern == "?" || pattern == "[" {
      assert IsGlobAt(pattern, 0);
    }
  }

  // ------------------------------------------------------------- which kind answers

  /** The key's text answers for the name, by the rule of its kind. */
  ghost predicate Applies(globs: Globs, k: string, kind: Kind, name: string) {
    && Stored(globs, k).Some? && Stored(globs, k).value.0 == kind
    && var text := Stored(globs, k).value.1;
    match kind
    case Exact => name == text
    case Suffix => LabelSuffix(text, name)
    case Prefix => text <= name
    case Substring => Occurs(name, text)
    case Glob => globs.matches(text, name)
  }

  ghost predicate SomeApplies(globs: Globs, keys: set<string>, kind: Kind, name: string) {
    exists k :: k in keys && Applies(globs, k, kind, name)
  }

  /** The key answered: it applies, nothing of an earlier kind does, and no longer prefix or suffix does. */
  ghost predicate Prevails(globs: Globs, keys: set<string>, k: string, name: string) {
    && k in keys && Stored(globs, k).Some?
    && var (kind, text) := Stored(globs, k).value;
    && Applies(globs, k, kind, name)
    && (kind != Exact ==> !SomeApplies(globs, keys, Exact, name))
    && (kind == Substring || kind == Glob ==> !SomeApplies(globs, keys, Prefix, name))
    && (kind == Glob ==> !SomeApplies(globs, keys, Substring, name))
    && (kind == Prefix || kind == Suffix ==>
          forall j :: j in keys && Applies(globs, j, kind, name) ==> |Stored(globs, j).value.1| <= |text|)
    && (kind == Prefix || kind == Substring || kind == Glob ==>
          SuffixKey(ReversedTexts(globs, keys), Reversed(name)).None?)
  }

  lemma AppliesBy(globs: Globs, keys: set<string>, k: string, kind: Kind, text: string, name: string)
    requires k in keys && Stored(globs, k) == Some((kind, text))
    ensures kind == Exact && name == text ==> k in Having(globs, keys, Exact, name)
    ensures kind == Prefix && text <= name ==> text in Texts(globs, keys, Prefix)
    ensures kind == Suffix ==> Reversed(text) in ReversedTexts(globs, keys)
    ensures kind == Substring && Occurs(name, text) ==> k in Parts(globs, keys, name)
    ensures kind == Glob && globs.matches(text, name) ==> k in MatchingGlobs(globs, keys, name)
  {
    ContainsIffOccurs(name, text);
  }

  /** Nothing of a kind applies where the search of that kind finds nothing. */
  lemma NoneApplies(globs: Globs, keys: set<string>, name: string)
    ensures Having(globs, keys, Exact, name) == {} ==> !SomeApplies(globs, keys, Exact, name)
    ensures LongestPrefix(Texts(globs, keys, Prefix), name).None? ==> !SomeApplies(globs, keys, Prefix, name)
    ensures Parts(globs, keys, name) == {} ==> !SomeApplies(globs, keys, Substring, name)
    ensures MatchingGlobs(globs, keys, name) == {} ==> !SomeApplies(globs, keys, Glob, name)
  {
    forall k, kind | k in keys && Applies(globs, k, kind, name)
      ensures kind == Exact ==> Having(globs, keys, Exact, name) != {}
      ensures kind == Prefix ==> LongestPrefix(Texts(globs, keys, Prefix), name).Some?
      ensures kind == Substring ==> Parts(globs, keys, name) != {}
      ensures kind == Glob ==> MatchingGlobs(globs, keys, name) != {}
    {
      AppliesBy(globs, keys, k, kind, Stored(globs, k).value.1, name);
    }
  }

  lemma LongestPrevails(globs: Globs, keys: set<string>, k: string, name: string)
    requires k in Contenders(globs, keys, name) && |name| >= 2 && k in keys && Stored(globs, k).Some?
    ensures
      var (kind, text) := Stored(globs, k).value;
      && Applies(globs, k, kind, name)
      && (kind == Prefix || kind == Suffix ==>
            forall j :: j in keys && Applies(globs, j, kind, name) ==> |Stored(globs, j).value.1| <= |text|)
  {
    var (kind, text) := Stored(globs, k).value;
    ContainsIffOccurs(name, text);
    if kind == Suffix {
      var key := SuffixKey(ReversedTexts(globs, keys), Reversed(name)).value;
      SuffixKeyIsLongest(ReversedTexts(globs, keys), Reversed(name));
      ReversedTwice(key);
      LabelPrefixIsSuffix(text, name);
    }
    forall j | j in keys && Applies(globs, j, kind, name) && (kind == Prefix || kind == Suffix)
      ensures |Stored(globs, j).value.1| <= |text|
    {
      AppliesBy(globs, keys, j, kind, Stored(globs, j).value.1, name);
      LabelPrefixIsSuffix(Stored(globs, j).value.1, name);
    }
  }

  lemma ContenderPrevails(globs: Globs, keys: set<string>, k: string, name: string)
    requires k in Contenders(globs, keys, name) && |name| >= 2 && k in keys && Stored(globs, k).Some?
    ensures Prevails(globs, keys, k, name)
  {
    LongestPrevails(globs, keys, k, name);
    NoneApplies(globs, keys, name);
  }

  /** Nothing applies to the name, and the suffix branch finds nothing. */
  ghost predicate Unanswered(globs: Globs, keys: set<string>, name: string) {
    && !SomeApplies(globs, keys, Exact, name) && !SomeApplies(globs, keys, Prefix, name)
    && !SomeApplies(globs, keys, Substring, name) && !SomeApplies(globs, keys, Glob, name)
    && SuffixKey(ReversedTexts(globs, keys), Reversed(name)).None?
  }

  lemma NoContenderIsUnanswered(globs: Globs, keys: set<string>, name: string)
    requires Contenders(globs, keys, name) == {} && |name| >= 2
    ensures Unanswered(globs, keys, name)
  {
    NoneApplies(globs, keys, name);
    var bySuffix := SuffixKey(ReversedTexts(globs, keys), Reversed(name));
    if bySuffix.Some? {
      SuffixKeyIsLongest(ReversedTexts(globs, keys), Reversed(name));
      InReversedTexts(globs, keys, bySuffix.value);
      InTexts(globs, keys, Suffix, Reversed(bySuffix.value));
    }
    var byPrefix := LongestPrefix(Texts(globs, keys, Prefix), name);
    if byPrefix.Some? {
      InTexts(globs, keys, Prefix, byPrefix.value);
    }
  }

  /** Whatever the order of the additions, a key that prevails answers; and none does only where nothing applies. */
  lemma AnswerPrevails(globs: Globs, keys: set<string>, order: seq<string>, name: string)
    requires Patterns(globs, keys) && IsOrder(order, keys)
    ensures match Asked(globs, order, name)
      case Some(hit) => |name| >= 2 && Prevails(globs, keys, hit.1, name)
      case None => |name| < 2 || Unanswered(globs, keys, name)
  {
    EveryOrderAnswers(globs, keys, order, name);
    match Asked(globs, order, name)
    case Some(hit) => ContenderPrevails(globs, keys, hit.1, name);
    case None =>
      if |name| >= 2 {
        NoContenderIsUnanswered(globs, keys, name);
      }
  }

  /** Of two patterns stored as one text, the tries keep the first value and the other stores the last. */
  lemma SameTextTwice<V>(text: string, first: V, second: V)
    ensures Added(Added(Nothing(), Exact, text, first), Exact, text, second).exact == map[text := second]
    ensures Added(Added(Nothing(), Prefix, text, first), Prefix, text, second).prefixes == map[text := first]
    ensures Added(Added(Nothing(), Suffix, text, first), Suffix, text, second).suffixes == map[Reversed(text) := first]
    ensures Added(Added(Nothing(), Substring, text, first), Substring, text, second).indirect == map[text := second]
    ensures Added(Added(Nothing(), Glob, text, first), Glob, text, second).indirect == map[text := second]
  {
  }
}
