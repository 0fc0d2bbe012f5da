/**
  The pattern matcher: how a pattern is classified and stored, how a name is
  looked up in all the stores, and what the order of the additions decides.
 */
module PatternMatching {
  import opened Common
  import opened DomainRules

  // ------------------------------------------------------------- patterns

  datatype Kind = Glob | Substring | Prefix | Exact | Suffix

  /** Shell-style globs: which are well formed, and which names they match. */
  datatype Globs = Globs(valid: string -> bool, matches: (string, string) -> bool)

  function Lower(c: char): char {
    if 'A' <= c <= 'Z' then (c as int + 32) as char else c
  }

  function Lowered(s: string): (r: string)
    ensures |r| == |s| && forall i :: 0 <= i < |s| ==> r[i] == Lower(s[i])
  {
    seq(|s|, i requires 0 <= i < |s| => Lower(s[i]))
  }

  lemma LoweredTwice(s: string)
    ensures Lowered(Lowered(s)) == Lowered(s)
  {
  }

  /** A character that only globs have: a question mark, a bracket, or a star inside. */
  predicate IsGlobAt(s: string, i: nat)
    requires i < |s|
  {
    s[i] == '?' || s[i] == '[' || (s[i] == '*' && i != 0 && i != |s| - 1)
  }

  predicate HasGlob(s: string) {
    exists i :: 0 <= i < |s| && IsGlobAt(s, i)
  }

  method IsGlobCandidate(s: string) returns (r: bool)
    ensures r <==> HasGlob(s)
  {
    for i := 0 to |s|
      invariant forall j :: 0 <= j < i ==> !IsGlobAt(s, j)
    {
      if s[i] == '?' || s[i] == '[' {
        assert IsGlobAt(s, i);
        return true;
      } else if s[i] == '*' && i != 0 && i != |s| - 1 {
        assert IsGlobAt(s, i);
        return true;
      }
    }
    return false;
  }

  function TrimFirst(s: string, c: char): string {
    if s != "" && s[0] == c then s[1..] else s
  }

  predicate Leads(s: string, c: char) {
    s != "" && s[0] == c
  }

  predicate Trails(s: string, c: char) {
    s != "" && s[|s| - 1] == c
  }

  /** What a pattern is stored as, its stars, its dot and its equals sign taken off; nothing for a syntax error. */
  function Stored(globs: Globs, pattern: string): Option<(Kind, string)> {
    if HasGlob(pattern) then
      if |pattern| < 2 || !globs.valid(pattern) then None else Some((Glob, Lowered(pattern)))
    else if Leads(pattern, '*') && Trails(pattern, '*') then
      if |pattern| < 3 then None else Some((Substring, Lowered(pattern[1..|pattern| - 1])))
    else if Trails(pattern, '*') then Some((Prefix, Lowered(pattern[..|pattern| - 1])))
    else if Leads(pattern, '=') then
      if |pattern| < 2 then None else Some((Exact, Lowered(pattern[1..])))
    else
      var rule := TrimFirst(TrimFirst(pattern, '*'), '.');
      if rule == "" then None else Some((Suffix, Lowered(rule)))
  }

  /** How a stored pattern is reported. */
  function Shown(kind: Kind, text: string): string {
    match kind
    case Glob => text
    case Substring => "*" + text + "*"
    case Prefix => text + "*"
    case Exact => text
    case Suffix => "*." + text
  }

  // ------------------------------------------------------------- stores

  datatype Stores<V> = Stores(
    exact: map<string, V>, suffixes: map<string, V>, prefixes: map<string, V>,
    substrings: seq<string>, patterns: seq<string>, indirect: map<string, V>)

  function Nothing<V>(): Stores<V> {
    Stores(map[], map[], map[], [], [], map[])
  }

  /** A trie keeps the first value of a key. */
  function WithFirst<V>(trie: map<string, V>, key: string, val: V): map<string, V> {
    if key in trie then trie else trie[key := val]
  }

  /** The lists only hold what has a value. */
  ghost predicate Backed<V>(s: Stores<V>) {
    && (forall i :: 0 <= i < |s.substrings| ==> s.substrings[i] in s.indirect)
    && (forall i :: 0 <= i < |s.patterns| ==> s.patterns[i] in s.indirect)
  }

  function Added<V>(s: Stores<V>, kind: Kind, text: string, val: V): (r: Stores<V>)
    ensures Backed(s) ==> Backed(r)
  {
    match kind
    case Glob => s.(patterns := s.patterns + [text], indirect := s.indirect[text := val])
    case Substring => s.(substrings := s.substrings + [text], indirect := s.indirect[text := val])
    case Prefix => s.(prefixes := WithFirst(s.prefixes, text, val))
    case Exact => s.(exact := s.exact[text := val])
    case Suffix => s.(suffixes := WithFirst(s.suffixes, Reversed(text), val))
  }

  predicate Contains(name: string, part: string) {
    part <= name || (name != "" && Contains(name[1..], part))
  }

  /** The first element of a list that has the property, or the length. */
  function First(list: seq<string>, has: string -> bool): (i: nat)
    ensures i <= |list| && (i < |list| ==> has(list[i])) && forall j :: 0 <= j < i ==> !has(list[j])
  {
    if list == [] || has(list[0]) then 0 else First(list[1..], has) + 1
  }

  /** The first substring in the name, or else the first glob that matches it. */
  function ListAnswer<V>(globs: Globs, s: Stores<V>, name: string): Option<(string, V)>
    requires Backed(s)
  {
    var i, j := First(s.substrings, part => Contains(name, part)), First(s.patterns, glob => globs.matches(glob, name));
    if i < |s.substrings| then Some((Shown(Substring, s.substrings[i]), s.indirect[s.substrings[i]]))
    else if j < |s.patterns| then Some((Shown(Glob, s.patterns[j]), s.indirect[s.patterns[j]]))
    else None
  }

  /** The answer for a name: what is reported, and the value. */
  function Answer<V>(globs: Globs, s: Stores<V>, name: string): Option<(string, V)>
    requires Backed(s)
  {
    if |name| < 2 then None
    else if name in s.exact then Some((Shown(Exact, name), s.exact[name]))
    else if SuffixKey(s.suffixes.Keys, Reversed(name)).Some? then
      var key := SuffixKey(s.suffixes.Keys, Reversed(name)).value;
      SuffixKeyIsLongest(s.suffixes.Keys, Reversed(name));
      Some((Shown(Suffix, Reversed(key)), s.suffixes[key]))
    else if LongestPrefix(s.prefixes.Keys, name).Some? then
      var key := LongestPrefix(s.prefixes.Keys, name).value;
      Some((Shown(Prefix, key), s.prefixes[key]))
    else ListAnswer(globs, s, name)
  }

  class PatternMatcher<V> {
    var exact: map<string, V>
    var suffixes: map<string, V>
    var prefixes: map<string, V>
    var substrings: seq<string>
    var patterns: seq<string>
    var indirectVals: map<string, V>

    function View(): Stores<V>
      reads this
    {
      Stores(exact, suffixes, prefixes, substrings, patterns, indirectVals)
    }

    constructor ()
      ensures View() == Nothing()
    {
      exact, suffixes, prefixes, substrings, patterns, indirectVals := map[], map[], map[], [], [], map[];
    }

    /** Adds a rule, or refuses a pattern that is not well formed. */
    method Add(globs: Globs, pattern: string, val: V) returns (ok: bool)
      modifies this
      ensures ok <==> Stored(globs, pattern).Some?
      ensures ok ==>
        var (kind, term) := Stored(globs, pattern).value;
        View() == Added(old(View()), kind, term, val)
      ensures !ok ==> View() == old(View())
      ensures old(Backed(View())) ==> Backed(View())
    {
      var leadingStar, trailingStar, exactMark := Leads(pattern, '*'), Trails(pattern, '*'), Leads(pattern, '=');
      var kind, text := Suffix, pattern;
      var isGlob := IsGlobCandidate(pattern);
      if isGlob {
        kind := Glob;
        if |pattern| < 2 || !globs.valid(pattern) {
          return false;
        }
      } else if leadingStar && trailingStar {
        kind := Substring;
        if |pattern| < 3 {
          return false;
        }
        text := text[1..|text| - 1];
      } else if trailingStar {
        kind := Prefix;
        if |pattern| < 2 {
          return false;
        }
        text := text[..|text| - 1];
      } else if exactMark {
        kind := Exact;
        if |pattern| < 2 {
          return false;
        }
        text := text[1..];
      } else {
        if leadingStar {
          text := text[1..];
        }
        text := TrimFirst(text, '.');
      }
      if |text| == 0 {
        return false;
      }
      text := Lowered(text);
      match kind {
        case Substring =>
          substrings := substrings + [text];
          indirectVals := indirectVals[text := val];
        case Glob =>
          patterns := patterns + [text];
          indirectVals := indirectVals[text := val];
        case Prefix =>
          prefixes := WithFirst(prefixes, text, val);
        case Suffix =>
          var key := StringReverse(text);
          suffixes := WithFirst(suffixes, key, val);
        case Exact =>
          exact := exact[text := val];
      }
      return true;
    }

    /** Looks a name up in the stores, one after another. */
    method Eval(globs: Globs, qName: string) returns (r: Option<(string, V)>)
      requires Backed(View())
      ensures r == Answer(globs, View(), qName)
    {
      if |qName| < 2 {
        return None;
      }
      if qName in exact {
        return Some((qName, exact[qName]));
      }
      var bySuffix := EvalSuffix(qName);
      if bySuffix.Some? {
        return bySuffix;
      }
      var found := LongestPrefix(prefixes.Keys, qName);
      if found.Some? {
        return Some((found.value + "*", prefixes[found.value]));
      }
      r := EvalLists(globs, qName);
    }

    /** The loops over the substrings and the globs. */
    method EvalLists(globs: Globs, qName: string) returns (r: Option<(string, V)>)
      requires Backed(View())
      ensures r == ListAnswer(globs, View(), qName)
    {
      for i := 0 to |substrings|
        invariant forall j :: 0 <= j < i ==> !Contains(qName, substrings[j])
      {
        if Contains(qName, substrings[i]) {
          FirstIs(substrings, part => Contains(qName, part), i);
          return Some(("*" + substrings[i] + "*", indirectVals[substrings[i]]));
        }
      }
      FirstIs(substrings, part => Contains(qName, part), |substrings|);
      for i := 0 to |patterns|
        invariant forall j :: 0 <= j < i ==> !globs.matches(patterns[j], qName)
      {
        if globs.matches(patterns[i], qName) {
          FirstIs(patterns, glob => globs.matches(glob, qName), i);
          return Some((patterns[i], indirectVals[patterns[i]]));
        }
      }
      FirstIs(patterns, glob => globs.matches(glob, qName), |patterns|);
      return None;
    }

    /** The suffix branch, with its two lookups. */
    method EvalSuffix(qName: string) returns (r: Option<(string, V)>)
      ensures r.Some? <==> SuffixKey(suffixes.Keys, Reversed(qName)).Some?
      ensures r.Some? ==>
        var key := SuffixKey(suffixes.Keys, Reversed(qName)).value;
        key in suffixes && r.value == ("*." + Reversed(key), suffixes[key])
    {
      var revQname := StringReverse(qName);
      var found := LongestPrefix(suffixes.Keys, revQname);
      if found.None? {
        return None;
      }
      if |found.value| == |revQname| || revQname[|found.value|] == '.' {
        var rule := StringReverse(found.value);
        return Some(("*." + rule, suffixes[found.value]));
      }
      var i := LastDot(revQname);
      if i > 0 {
        var pName := revQname[..i];
        found := LongestPrefix(suffixes.Keys, pName);
        if found.Some? && (|found.value| == |pName| || pName[|found.value|] == '.') {
          var rule := StringReverse(found.value);
          return Some(("*." + rule, suffixes[found.value]));
        }
      }
      return None;
    }
  }

  lemma FirstIs(list: seq<string>, has: string -> bool, i: nat)
    requires i <= |list| && (i < |list| ==> has(list[i])) && forall j :: 0 <= j < i ==> !has(list[j])
    ensures First(list, has) == i
  {
    assert First(list, has) >= i;
  }

  // ------------------------------------------------------------- the order of additions

  /** The stores after adding the patterns of `order`, each with itself as its value. */
  function Filled(globs: Globs, order: seq<string>): (s: Stores<string>)
    requires forall k :: k in order ==> Stored(globs, k).Some?
    ensures Backed(s)
  {
    if order == [] then Nothing()
    else
      var k := order[|order| - 1];
      Added(Filled(globs, order[..|order| - 1]), Stored(globs, k).value.0, Stored(globs, k).value.1, k)
  }

  ghost predicate Is(globs: Globs, k: string, kind: Kind, text: string) {
    Stored(globs, k) == Some((kind, text))
  }

  /** The patterns stored under a text. */
  ghost function Having(globs: Globs, keys: set<string>, kind: Kind, text: string): set<string> {
    set k | k in keys && Is(globs, k, kind, text)
  }

  /** A store holds exactly the patterns of its kind, each text with a pattern that has it. */
  ghost predicate Reflects(globs: Globs, keys: set<string>, kind: Kind, store: map<string, string>) {
    forall t :: if t in store then store[t] in Having(globs, keys, kind, t) else Having(globs, keys, kind, t) == {}
  }

  /** The same for the suffix store, which has its texts reversed. */
  ghost predicate ReflectsReversed(globs: Globs, keys: set<string>, store: map<string, string>) {
    forall t :: var h := Having(globs, keys, Suffix, Reversed(t));
      if t in store then store[t] in h else h == {}
  }

  /** And for a list with its values. */
  ghost predicate ReflectsList(globs: Globs, keys: set<string>, kind: Kind, list: seq<string>,
                               indirect: map<string, string>)
  {
    forall t :: var h := Having(globs, keys, kind, t);
      if t in list then t in indirect && indirect[t] in h else h == {}
  }

  ghost predicate Holds(globs: Globs, keys: set<string>, s: Stores<string>) {
    && Backed(s)
    && Reflects(globs, keys, Exact, s.exact) && Reflects(globs, keys, Prefix, s.prefixes)
    && ReflectsReversed(globs, keys, s.suffixes)
    && ReflectsList(globs, keys, Substring, s.substrings, s.indirect)
    && ReflectsList(globs, keys, Glob, s.patterns, s.indirect)
  }

  lemma HavingMore(globs: Globs, keys: set<string>, k: string, kind: Kind, text: string)
    ensures Having(globs, keys + {k}, kind, text) ==
      Having(globs, keys, kind, text) + if Is(globs, k, kind, text) then {k} else {}
  {
  }

  /** Substrings have no glob characters, and globs do: the two lists share no text. */
  lemma ListsApart(globs: Globs, j: string, k: string, s: string, g: string)
    requires Is(globs, j, Substring, s) && Is(globs, k, Glob, g)
    ensures s != g
  {
    var i :| 0 <= i < |k| && IsGlobAt(k, i);
    assert g[i] == k[i];
    assert forall n :: 0 <= n < |s| ==> s[n] == Lower(j[n + 1]) && !IsGlobAt(j, n + 1);
  }

  lemma ReflectsMore(globs: Globs, keys: set<string>, kind: Kind, store: map<string, string>, k: string)
    requires Reflects(globs, keys, kind, store) && Stored(globs, k).Some?
    ensures var (kd, t) := Stored(globs, k).value;
      if kd == kind then
        Reflects(globs, keys + {k}, kind, store[t := k]) && Reflects(globs, keys + {k}, kind, WithFirst(store, t, k))
      else Reflects(globs, keys + {k}, kind, store)
  {
    forall t
      ensures
        Having(globs, keys + {k}, kind, t) ==
        Having(globs, keys, kind, t) + if Is(globs, k, kind, t) then {k} else {}
    {
      HavingMore(globs, keys, k, kind, t);
    }
  }

  lemma ReflectsReversedMore(globs: Globs, keys: set<string>, store: map<string, string>, k: string)
    requires ReflectsReversed(globs, keys, store) && Stored(globs, k).Some?
    ensures var (kd, t) := Stored(globs, k).value;
      ReflectsReversed(globs, keys + {k}, if kd == Suffix then WithFirst(store, Reversed(t), k) else store)
  {
    forall r
      ensures var t := Reversed(r);
        Having(globs, keys + {k}, Suffix, t) ==
        Having(globs, keys, Suffix, t) + if Is(globs, k, Suffix, t) then {k} else {}
      ensures Reversed(Reversed(r)) == r
    {
      HavingMore(globs, keys, k, Suffix, Reversed(r));
      ReversedTwice(r);
    }
  }

  lemma ReflectsListMore(globs: Globs, keys: set<string>, kind: Kind, list: seq<string>,
                         indirect: map<string, string>, k: string)
    requires ReflectsList(globs, keys, kind, list, indirect) && Stored(globs, k).Some?
    requires kind == Substring || kind == Glob
    ensures var (kd, t) := Stored(globs, k).value;
      var indirect' := if kd == Substring || kd == Glob then indirect[t := k] else indirect;
      ReflectsList(globs, keys + {k}, kind, if kd == kind then list + [t] else list, indirect')
  {
    var (kd, u) := Stored(globs, k).value;
    forall t
      ensures
        Having(globs, keys + {k}, kind, t) ==
        Having(globs, keys, kind, t) + if Is(globs, k, kind, t) then {k} else {}
      ensures t in list && kd != kind && (kd == Substring || kd == Glob) ==> t != u
    {
      HavingMore(globs, keys, k, kind, t);
      if t in list && kd == Substring && kind == Glob {
        ListsApart(globs, k, indirect[t], u, t);
      } else if t in list && kd == Glob && kind == Substring {
        ListsApart(globs, indirect[t], k, t, u);
      }
    }
  }

  lemma AddedHolds(globs: Globs, keys: set<string>, s: Stores<string>, k: string)
    requires Holds(globs, keys, s) && Stored(globs, k).Some?
    ensures Holds(globs, keys + {k}, Added(s, Stored(globs, k).value.0, Stored(globs, k).value.1, k))
  {
    ReflectsMore(globs, keys, Exact, s.exact, k);
    ReflectsMore(globs, keys, Prefix, s.prefixes, k);
    ReflectsReversedMore(globs, keys, s.suffixes, k);
    ReflectsListMore(globs, keys, Substring, s.substrings, s.indirect, k);
    ReflectsListMore(globs, keys, Glob, s.patterns, s.indirect, k);
  }

  ghost function Elements(order: seq<string>): set<string> {
    set k | k in order
  }

  lemma ElementsAppend(order: seq<string>, k: string)
    ensures Elements(order + [k]) == Elements(order) + {k}
  {
  }

  lemma NothingHolds(globs: Globs)
    ensures Holds(globs, {}, Nothing())
  {
  }

  lemma {:induction false} FilledHolds(globs: Globs, order: seq<string>)
    requires forall k :: k in order ==> Stored(globs, k).Some?
    ensures Holds(globs, Elements(order), Filled(globs, order))
  {
    if order == [] {
      NothingHolds(globs);
      assert Elements(order) == {};
    } else {
      var before, k := order[..|order| - 1], order[|order| - 1];
      FilledHolds(globs, before);
      AddedHolds(globs, Elements(before), Filled(globs, before), k);
      assert order == before + [k];
      ElementsAppend(before, k);
    }
  }

  // ------------------------------------------------------------- contenders

  ghost function Texts(globs: Globs, keys: set<string>, kind: Kind): set<string> {
    set k | k in keys && Stored(globs, k).Some? && Stored(globs, k).value.0 == kind :: Stored(globs, k).value.1
  }

  ghost function ReversedTexts(globs: Globs, keys: set<string>): set<string> {
    set t | t in Texts(globs, keys, Suffix) :: Reversed(t)
  }

  ghost function Parts(globs: Globs, keys: set<string>, name: string): set<string> {
    set k | k in keys && Stored(globs, k).Some? && Stored(globs, k).value.0 == Substring &&
            Contains(name, Stored(globs, k).value.1)
  }

  ghost function MatchingGlobs(globs: Globs, keys: set<string>, name: string): set<string> {
    set k | k in keys && Stored(globs, k).Some? && Stored(globs, k).value.0 == Glob &&
            globs.matches(Stored(globs, k).value.1, name)
  }

  /**
    The patterns that can answer for a name, read off the table: those of the
    first kind that has any, in the order exact, suffix, prefix, substring, glob;
    of suffixes and prefixes those with the longest text.
   */
  ghost function Contenders(globs: Globs, keys: set<string>, name: string): set<string> {
    if |name| < 2 then {}
    else if Having(globs, keys, Exact, name) != {} then Having(globs, keys, Exact, name)
    else
      match SuffixKey(ReversedTexts(globs, keys), Reversed(name))
      case Some(key) => Having(globs, keys, Suffix, Reversed(key))
      case None =>
        match LongestPrefix(Texts(globs, keys, Prefix), name)
        case Some(key) => Having(globs, keys, Prefix, key)
        case None =>
          if Parts(globs, keys, name) != {} then Parts(globs, keys, name) else MatchingGlobs(globs, keys, name)
  }

  lemma StoreTexts(globs: Globs, keys: set<string>, s: Stores<string>)
    requires Holds(globs, keys, s)
    ensures s.prefixes.Keys == Texts(globs, keys, Prefix) && s.suffixes.Keys == ReversedTexts(globs, keys)
  {
    forall t
      ensures t in s.prefixes <==> t in Texts(globs, keys, Prefix)
      ensures t in s.suffixes <==> t in ReversedTexts(globs, keys)
    {
      assert t in s.prefixes <==> Having(globs, keys, Prefix, t) != {};
      assert t in s.suffixes <==> Having(globs, keys, Suffix, Reversed(t)) != {};
      ReversedTwice(t);
      InTexts(globs, keys, Prefix, t);
      InTexts(globs, keys, Suffix, Reversed(t));
      InReversedTexts(globs, keys, t);
    }
  }

  lemma InTexts(globs: Globs, keys: set<string>, kind: Kind, t: string)
    ensures t in Texts(globs, keys, kind) <==> Having(globs, keys, kind, t) != {}
  {
    if t in Texts(globs, keys, kind) {
      var k :| k in keys && Stored(globs, k) == Some((kind, t));
      assert k in Having(globs, keys, kind, t);
    }
    if Having(globs, keys, kind, t) != {} {
      var k :| k in Having(globs, keys, kind, t);
    }
  }

  lemma InReversedTexts(globs: Globs, keys: set<string>, r: string)
    ensures r in ReversedTexts(globs, keys) <==> Reversed(r) in Texts(globs, keys, Suffix)
  {
    ReversedTwice(r);
    if r in ReversedTexts(globs, keys) {
      var t :| t in Texts(globs, keys, Suffix) && r == Reversed(t);
      ReversedTwice(t);
    }
  }

  /** The hit a pattern gives when it answers. */
  ghost function HitOf(globs: Globs, k: string): (string, string)
    requires Stored(globs, k).Some?
  {
    (Shown(Stored(globs, k).value.0, Stored(globs, k).value.1), k)
  }

  lemma ListAnswerIsContender(globs: Globs, keys: set<string>, s: Stores<string>, name: string)
    requires Holds(globs, keys, s)
    ensures
      var parts, matching := Parts(globs, keys, name), MatchingGlobs(globs, keys, name);
      var c := if parts != {} then parts else matching;
      match ListAnswer(globs, s, name)
      case None => c == {}
      case Some(hit) => hit.1 in c && Stored(globs, hit.1).Some? && hit == HitOf(globs, hit.1)
  {
    var contains := part => Contains(name, part);
    var matches := glob => globs.matches(glob, name);
    var i, j := First(s.substrings, contains), First(s.patterns, matches);
    forall k | k in Parts(globs, keys, name)
      ensures i < |s.substrings|
    {
      assert k in Having(globs, keys, Substring, Stored(globs, k).value.1);
    }
    forall k | k in MatchingGlobs(globs, keys, name)
      ensures j < |s.patterns|
    {
      assert k in Having(globs, keys, Glob, Stored(globs, k).value.1);
    }
    if i < |s.substrings| {
      assert s.indirect[s.substrings[i]] in Parts(globs, keys, name);
    } else if j < |s.patterns| {
      assert s.indirect[s.patterns[j]] in MatchingGlobs(globs, keys, name);
    }
  }

  /** Whatever the order, it is a contender that answers, and one does if there is any. */
  lemma AnswerIsContender(globs: Globs, keys: set<string>, s: Stores<string>, name: string)
    requires Holds(globs, keys, s)
    ensures match Answer(globs, s, name)
      case None => Contenders(globs, keys, name) == {}
      case Some(hit) =>
        hit.1 in Contenders(globs, keys, name) && Stored(globs, hit.1).Some? && hit == HitOf(globs, hit.1)
  {
    StoreTexts(globs, keys, s);
    ListAnswerIsContender(globs, keys, s, name);
    var bySuffix := SuffixKey(s.suffixes.Keys, Reversed(name));
    if bySuffix.Some? {
      SuffixKeyIsLongest(s.suffixes.Keys, Reversed(name));
      assert s.suffixes[bySuffix.value] in Having(globs, keys, Suffix, Reversed(bySuffix.value));
    }
    assert name in s.exact <==> Having(globs, keys, Exact, name) != {};
  }

  /** The pattern that is stored as a text, if it is in lower case and not a suffix. */
  ghost function Restored(kind: Kind, text: string): string {
    match kind
    case Glob => text
    case Substring => "*" + text + "*"
    case Prefix => text + "*"
    case Exact => "=" + text
    case Suffix => text
  }

  lemma RestoredIsPattern(globs: Globs, k: string)
    requires Lowered(k) == k && Stored(globs, k).Some? && Stored(globs, k).value.0 != Suffix
    ensures k == Restored(Stored(globs, k).value.0, Stored(globs, k).value.1)
  {
    match Stored(globs, k).value.0 {
      case Glob =>
      case Substring =>
        LoweredPart(k, 1, |k| - 1);
        assert k == "*" + k[1..|k| - 1] + "*";
      case Prefix =>
        LoweredPart(k, 0, |k| - 1);
        assert k == k[..|k| - 1] + "*";
      case Exact =>
        LoweredPart(k, 1, |k|);
        assert k == "=" + k[1..];
    }
  }

  lemma LoweredPart(s: string, i: nat, j: nat)
    requires Lowered(s) == s && i <= j <= |s|
    ensures Lowered(s[i..j]) == s[i..j]
  {
    assert forall n :: 0 <= n < |s| ==> Lower(s[n]) == s[n];
  }

  /** Patterns in lower case that are stored alike, other than as suffixes, are the same. */
  lemma StoredApart(globs: Globs, j: string, k: string)
    requires Lowered(j) == j && Lowered(k) == k && Stored(globs, j).Some? && Stored(globs, j) == Stored(globs, k)
    requires Stored(globs, j).value.0 != Suffix
    ensures j == k
  {
    RestoredIsPattern(globs, j);
    RestoredIsPattern(globs, k);
  }

  /** Well-formed patterns in lower case, as the loaders leave them. */
  ghost predicate Patterns(globs: Globs, keys: set<string>) {
    forall k :: k in keys ==> Stored(globs, k).Some? && Lowered(k) == k
  }

  /** The keys in some order, each once. */
  ghost predicate IsOrder(order: seq<string>, keys: set<string>) {
    Elements(order) == keys && forall i, j :: 0 <= i < j < |order| ==> order[i] != order[j]
  }

  /** The first element with the property is `text`. */
  ghost predicate Leading(list: seq<string>, has: string -> bool, text: string) {
    var i := First(list, has);
    i < |list| && list[i] == text
  }

  /** For a name, pattern `k` stored as `text` comes before all others of its kind that could answer. */
  ghost predicate Decides(globs: Globs, kind: Kind, text: string, k: string, name: string, s: Stores<string>) {
    match kind
    case Suffix => Reversed(text) in s.suffixes && s.suffixes[Reversed(text)] == k
    case Substring => Leading(s.substrings, part => Contains(name, part), text)
    case Glob => Leading(s.patterns, glob => globs.matches(glob, name), text)
    case _ => true
  }

  lemma LeadingStays(list: seq<string>, has: string -> bool, text: string, more: string)
    ensures Leading(list, has, text) ==> Leading(list + [more], has, text)
    ensures has(more) && (forall t :: t in list ==> !has(t)) ==> Leading(list + [more], has, more)
  {
    if Leading(list, has, text) {
      FirstIs(list + [more], has, First(list, has));
    } else if has(more) && forall t :: t in list ==> !has(t) {
      FirstIs(list + [more], has, |list|);
    }
  }

  lemma DecidesStays(globs: Globs, kind: Kind, text: string, k: string, name: string, s: Stores<string>,
                     kind': Kind, text': string, k': string)
    requires Decides(globs, kind, text, k, name, s)
    ensures Decides(globs, kind, text, k, name, Added(s, kind', text', k'))
  {
    LeadingStays(s.substrings, part => Contains(name, part), text, text');
    LeadingStays(s.patterns, glob => globs.matches(glob, name), text, text');
  }

  /** No key before it would answer where `k` does. */
  ghost predicate NoneBefore(globs: Globs, before: set<string>, kind: Kind, text: string, name: string) {
    match kind
    case Suffix => Having(globs, before, Suffix, text) == {}
    case Substring => Contains(name, text) && Parts(globs, before, name) == {}
    case Glob => globs.matches(text, name) && MatchingGlobs(globs, before, name) == {}
    case _ => true
  }

  lemma AddedDecides(globs: Globs, before: set<string>, s: Stores<string>, k: string, name: string)
    requires Holds(globs, before, s) && Stored(globs, k).Some?
    requires NoneBefore(globs, before, Stored(globs, k).value.0, Stored(globs, k).value.1, name)
    ensures var (kind, text) := Stored(globs, k).value; Decides(globs, kind, text, k, name, Added(s, kind, text, k))
  {
    var (kind, text) := Stored(globs, k).value;
    match kind {
      case Suffix =>
        ReversedTwice(text);
      case Substring =>
        forall t | t in s.substrings
          ensures !Contains(name, t)
        {
          assert s.indirect[t] in Having(globs, before, Substring, t);
          assert s.indirect[t] !in Parts(globs, before, name);
        }
        LeadingStays(s.substrings, part => Contains(name, part), text, text);
      case Glob =>
        forall t | t in s.patterns
          ensures !globs.matches(t, name)
        {
          assert s.indirect[t] in Having(globs, before, Glob, t);
          assert s.indirect[t] !in MatchingGlobs(globs, before, name);
        }
        LeadingStays(s.patterns, glob => globs.matches(glob, name), text, text);
      case _ =>
    }
  }

  lemma {:induction false} FilledDecides(globs: Globs, order: seq<string>, p: nat, name: string)
    requires p < |order| && forall k :: k in order ==> Stored(globs, k).Some?
    requires
      var (kind, term) := Stored(globs, order[p]).value;
      NoneBefore(globs, Elements(order[..p]), kind, term, name)
    ensures var (kind, text) := Stored(globs, order[p]).value;
      Decides(globs, kind, text, order[p], name, Filled(globs, order))
    decreases |order|
  {
    var before, last := order[..|order| - 1], order[|order| - 1];
    var (kind, text) := Stored(globs, order[p]).value;
    if p == |order| - 1 {
      FilledHolds(globs, before);
      AddedDecides(globs, Elements(before), Filled(globs, before), last, name);
    } else {
      assert before[..p] == order[..p];
      FilledDecides(globs, before, p, name);
      var (kind', text') := Stored(globs, last).value;
      DecidesStays(globs, kind, text, order[p], name, Filled(globs, before), kind', text', last);
    }
  }

  lemma FirstListed(globs: Globs, keys: set<string>, s: Stores<string>, k: string, name: string)
    requires Patterns(globs, keys) && Holds(globs, keys, s) && k in keys
    requires Decides(globs, Stored(globs, k).value.0, Stored(globs, k).value.1, k, name, s)
    ensures k in Parts(globs, keys, name) ==> ListAnswer(globs, s, name) == Some(HitOf(globs, k))
    ensures Parts(globs, keys, name) == {} && k in MatchingGlobs(globs, keys, name) ==>
      ListAnswer(globs, s, name) == Some(HitOf(globs, k))
  {
    var (kind, text) := Stored(globs, k).value;
    ListAnswerIsContender(globs, keys, s, name);
    if kind == Substring || kind == Glob {
      assert text in s.indirect && s.indirect[text] in Having(globs, keys, kind, text);
      StoredApart(globs, s.indirect[text], k);
    }
  }

  /** The contender that was added first answers. */
  lemma EarliestContenderAnswers(globs: Globs, order: seq<string>, p: nat, name: string)
    requires p < |order| && Patterns(globs, Elements(order)) && order[p] in Contenders(globs, Elements(order), name)
    requires forall q :: 0 <= q < p ==> order[q] !in Contenders(globs, Elements(order), name)
    ensures Answer(globs, Filled(globs, order), name) == Some(HitOf(globs, order[p]))
  {
    var keys, s, k := Elements(order), Filled(globs, order), order[p];
    var (kind, text) := Stored(globs, k).value;
    FilledHolds(globs, order);
    NoEarlierContender(globs, order, p, name);
    FilledDecides(globs, order, p, name);
    AnswerIsContender(globs, keys, s, name);
    FirstListed(globs, keys, s, k, name);
    StoreTexts(globs, keys, s);
    if kind == Suffix {
      SuffixKeyIsLongest(s.suffixes.Keys, Reversed(name));
      ReversedTwice(SuffixKey(s.suffixes.Keys, Reversed(name)).value);
    } else if kind == Exact || kind == Prefix {
      StoredApart(globs, Answer(globs, s, name).value.1, k);
    }
  }

  lemma NoEarlierContender(globs: Globs, order: seq<string>, p: nat, name: string)
    requires p < |order| && Patterns(globs, Elements(order)) && order[p] in Contenders(globs, Elements(order), name)
    requires forall q :: 0 <= q < p ==> order[q] !in Contenders(globs, Elements(order), name)
    ensures var (kind, text) := Stored(globs, order[p]).value;
      NoneBefore(globs, Elements(order[..p]), kind, text, name)
  {
    var keys, before := Elements(order), Elements(order[..p]);
    var (kind, text) := Stored(globs, order[p]).value;
    forall k | k in before
      ensures k in keys && k !in Contenders(globs, keys, name)
    {
      var q :| 0 <= q < p && order[..p][q] == k;
      assert order[q] == k;
    }
    assert kind == Suffix ==> Contenders(globs, keys, name) == Having(globs, keys, Suffix, text);
    assert kind == Substring ==> Contenders(globs, keys, name) == Parts(globs, keys, name);
    assert kind == Glob ==> Contenders(globs, keys, name) == MatchingGlobs(globs, keys, name);
    assert forall k :: k in Having(globs, before, Suffix, text) ==> k in Having(globs, keys, Suffix, text);
    assert forall k :: k in Parts(globs, before, name) ==> k in Parts(globs, keys, name);
    assert forall k :: k in MatchingGlobs(globs, before, name) ==> k in MatchingGlobs(globs, keys, name);
  }

  lemma {:induction false} OrderExists(keys: set<string>) returns (order: seq<string>)
    ensures IsOrder(order, keys)
  {
    if keys == {} {
      order := [];
    } else {
      var k :| k in keys;
      var rest := OrderExists(keys - {k});
      order := OrderWithFirst(keys, k, rest);
    }
  }

  lemma OrderWithFirst(keys: set<string>, k: string, rest: seq<string>) returns (order: seq<string>)
    requires k in keys && IsOrder(rest, keys - {k})
    ensures IsOrder(order, keys) && order == [k] + rest
  {
    order := [k] + rest;
    assert Elements(order) == {k} + Elements(rest);
    assert forall i :: 0 <= i < |rest| ==> rest[i] in Elements(rest);
  }

  /** What a matcher filled in that order answers; a pattern that is not well formed leaves no matcher. */
  function Asked(globs: Globs, order: seq<string>, name: string): Option<(string, string)> {
    if forall k :: k in order ==> Stored(globs, k).Some? then Answer(globs, Filled(globs, order), name) else None
  }

  /** Every order of the additions gives the name the same answer. */
  ghost predicate SameForEveryOrder(globs: Globs, keys: set<string>, name: string) {
    forall a, b :: IsOrder(a, keys) && IsOrder(b, keys) ==> Asked(globs, a, name) == Asked(globs, b, name)
  }

  /** The answers over all orders are exactly the contenders. */
  lemma EveryOrderAnswers(globs: Globs, keys: set<string>, order: seq<string>, name: string)
    requires Patterns(globs, keys) && IsOrder(order, keys)
    ensures match Asked(globs, order, name)
      case None => Contenders(globs, keys, name) == {}
      case Some(hit) => hit.1 in Contenders(globs, keys, name) && hit.1 in keys && hit == HitOf(globs, hit.1)
  {
    assert forall k :: k in order ==> k in Elements(order);
    FilledHolds(globs, order);
    AnswerIsContender(globs, keys, Filled(globs, order), name);
    ContendersAreKeys(globs, keys, name);
  }

  lemma ContendersAreKeys(globs: Globs, keys: set<string>, name: string)
    ensures Contenders(globs, keys, name) <= keys
  {
  }

  lemma EarliestIsAsked(globs: Globs, keys: set<string>, order: seq<string>, p: nat, name: string)
    requires Patterns(globs, keys) && IsOrder(order, keys) && p < |order| && order[p] in Contenders(globs, keys, name)
    requires forall q :: 0 <= q < p ==> order[q] !in Contenders(globs, keys, name)
    ensures order[p] in keys && Asked(globs, order, name) == Some(HitOf(globs, order[p]))
  {
    assert forall k :: k in order ==> k in Elements(order);
    EarliestContenderAnswers(globs, order, p, name);
  }

  lemma EveryContenderAnswers(globs: Globs, keys: set<string>, name: string, k: string) returns (order: seq<string>)
    requires Patterns(globs, keys) && k in Contenders(globs, keys, name)
    ensures IsOrder(order, keys) && k in keys && Asked(globs, order, name) == Some(HitOf(globs, k))
  {
    ContendersAreKeys(globs, keys, name);
    var rest := OrderExists(keys - {k});
    order := OrderWithFirst(keys, k, rest);
    EarliestIsAsked(globs, keys, order, 0, name);
  }

  /** The order of the additions does not show in the answer for a name exactly when it has one contender at most. */
  lemma OrderIsHiddenIff(globs: Globs, keys: set<string>, name: string)
    requires Patterns(globs, keys)
    ensures SameForEveryOrder(globs, keys, name) <==>
      forall j, k :: j in Contenders(globs, keys, name) && k in Contenders(globs, keys, name) ==> j == k
  {
    var c := Contenders(globs, keys, name);
    if forall j, k :: j in c && k in c ==> j == k {
      forall a, b | IsOrder(a, keys) && IsOrder(b, keys)
        ensures Asked(globs, a, name) == Asked(globs, b, name)
      {
        EveryOrderAnswers(globs, keys, a, name);
        EveryOrderAnswers(globs, keys, b, name);
      }
    } else {
      var j, k :| j in c && k in c && j != k;
      var a := EveryContenderAnswers(globs, keys, name, j);
      var b := EveryContenderAnswers(globs, keys, name, k);
    }
  }

  /** No two patterns are stored as one suffix, there is one substring at most, and no name matches two globs. */
  ghost predicate Unambiguous(globs: Globs, keys: set<string>) {
    && (forall j, k, t :: j in keys && k in keys && Is(globs, j, Suffix, t) && Is(globs, k, Suffix, t) ==> j == k)
    && (forall j, k, t, u ::
          j in keys && k in keys && Is(globs, j, Substring, t) && Is(globs, k, Substring, u) ==> j == k)
    && (forall name, j, k :: j in MatchingGlobs(globs, keys, name) && k in MatchingGlobs(globs, keys, name) ==> j == k)
  }

  /** For such a table the order shows in no answer at all. */
  lemma UnambiguousHidesOrder(globs: Globs, keys: set<string>, name: string)
    requires Patterns(globs, keys) && Unambiguous(globs, keys)
    ensures SameForEveryOrder(globs, keys, name)
  {
    var c := Contenders(globs, keys, name);
    forall j, k | j in c && k in c
      ensures j == k
    {
      ContendersAreKeys(globs, keys, name);
      var (kind, t) := Stored(globs, j).value;
      var (kind', u) := Stored(globs, k).value;
      assert Is(globs, j, kind, t) && Is(globs, k, kind', u);
      if kind == Exact || kind == Prefix {
        StoredApart(globs, j, k);
      }
    }
    OrderIsHiddenIff(globs, keys, name);
  }
}
