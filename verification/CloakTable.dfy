/** Loading the cloaking rules: what the table holds once every line has been read. */
module CloakTable {
  import opened Common
  import opened PatternMatching
  import opened CloakLoops

  /** An address, with its name for reverse lookups. */
  datatype Address = V4(arpa: string) | V6(arpa: string)

  /** How addresses are recognised, and whether reverse lookups get entries of their own. */
  datatype Lexer = Lexer(address: string -> Option<Address>, createPTR: bool)

  /** Reverse names are in lower case. */
  ghost predicate LowerArpa(lexer: Lexer) {
    forall t :: lexer.address(t).Some? ==> Lowered(lexer.address(t).value.arpa) == lexer.address(t).value.arpa
  }

  /** A line of the file after comments are stripped, cut at white space. */
  type Line = seq<string>

  predicate IsRule(line: Line) {
    |line| == 2 && line[0] != "" && line[1] != ""
  }

  function KeyOf(line: Line): string
    requires IsRule(line)
  {
    Lowered(line[0])
  }

  /** Line `i` is a rule for `k`. */
  predicate Names(lines: seq<Line>, i: nat, k: string)
    requires i < |lines|
  {
    IsRule(lines[i]) && KeyOf(lines[i]) == k
  }

  /** The first IPv6 address given to `k` in the first `n` lines. */
  ghost function FirstV6(lexer: Lexer, lines: seq<Line>, n: nat, k: string): Option<string>
    requires n <= |lines|
  {
    if n == 0 then None
    else
      var before := FirstV6(lexer, lines, n - 1, k);
      if before.Some? || !Names(lines, n - 1, k) then before
      else
        var address := lexer.address(lines[n - 1][1]);
        if address.Some? && address.value.V6? then Some(address.value.arpa) else None
  }

  /** Line `i` may get a reverse entry: it has no wildcard, and an address now or before. */
  ghost predicate Reverses(lexer: Lexer, lines: seq<Line>, i: nat)
    requires i < |lines|
    decreases i, 1
  {
    && lexer.createPTR && IsRule(lines[i]) && '*' !in KeyOf(lines[i])
    && (lexer.address(lines[i][1]).Some? || HasAddress(lexer, lines, i, KeyOf(lines[i])))
  }

  /** The key of the reverse entry line `i` makes, from its IPv4 address or the first IPv6 one of its name. */
  ghost function ReverseKey(lexer: Lexer, lines: seq<Line>, i: nat): Option<string>
    requires i < |lines|
    decreases i, 2
  {
    if !Reverses(lexer, lines, i) then None
    else
      var address, first := lexer.address(lines[i][1]), FirstV6(lexer, lines, i + 1, KeyOf(lines[i]));
      if address.Some? && address.value.V4? then Some("=" + address.value.arpa)
      else if first.Some? then Some("=" + first.value)
      else None
  }

  /** Line `i` needs an IPv6 address for its reverse entry, and its name has none: the loader indexes an empty list. */
  ghost predicate Breaks(lexer: Lexer, lines: seq<Line>, i: nat)
    requires i < |lines|
  {
    Reverses(lexer, lines, i) && ReverseKey(lexer, lines, i).None?
  }

  /** Some of the first `n` lines maps `k` to an address, or makes it a reverse entry. */
  ghost predicate HasAddress(lexer: Lexer, lines: seq<Line>, n: nat, k: string)
    requires n <= |lines|
    decreases n, 0
  {
    n > 0 && (|| HasAddress(lexer, lines, n - 1, k)
              || (Names(lines, n - 1, k) && lexer.address(lines[n - 1][1]).Some?)
              || ReverseKey(lexer, lines, n - 1) == Some(k))
  }

  /** Line `i` names `k`, or makes it a reverse entry. */
  ghost predicate Touches(lexer: Lexer, lines: seq<Line>, i: nat, k: string)
    requires i < |lines|
  {
    Names(lines, i, k) || ReverseKey(lexer, lines, i) == Some(k)
  }

  /** The last of the first `n` lines, counted from one, that touches `k`; zero if there is none. */
  ghost function LastLine(lexer: Lexer, lines: seq<Line>, n: nat, k: string): (l: nat)
    requires n <= |lines|
    ensures l <= n
    ensures l > 0 ==> Touches(lexer, lines, l - 1, k)
    ensures forall i :: l <= i < n ==> !Touches(lexer, lines, i, k)
  {
    if n == 0 then 0
    else if Touches(lexer, lines, n - 1, k) then n
    else LastLine(lexer, lines, n - 1, k)
  }

  /** The last name target given to `k` in the first `n` lines. */
  ghost function LastTarget(lexer: Lexer, lines: seq<Line>, n: nat, k: string): string
    requires n <= |lines|
  {
    if n == 0 then ""
    else if Names(lines, n - 1, k) && lexer.address(lines[n - 1][1]).None? then Lowered(lines[n - 1][1])
    else LastTarget(lexer, lines, n - 1, k)
  }

  /** What the first `n` lines say about `k`. */
  ghost function RuleFor(lexer: Lexer, lines: seq<Line>, n: nat, k: string): CloakedName
    requires n <= |lines|
  {
    CloakedName(LastTarget(lexer, lines, n, k), HasAddress(lexer, lines, n, k), LastLine(lexer, lines, n, k),
                FirstV6(lexer, lines, n, k))
  }

  /** Line `i` gives `k` a name target, not an address. */
  ghost predicate Targets(lexer: Lexer, lines: seq<Line>, i: nat, k: string)
    requires i < |lines|
  {
    |lines[i]| == 2 && lines[i][0] != "" && lines[i][1] != "" && Lowered(lines[i][0]) == k
    && lexer.address(lines[i][1]).None?
  }

  /** The target is that of the last line that gives one. */
  lemma {:induction false} LastTargetIsLast(lexer: Lexer, lines: seq<Line>, n: nat, k: string, i: nat)
    requires i < n <= |lines| && Targets(lexer, lines, i, k)
    requires forall j :: i < j < n ==> !Targets(lexer, lines, j, k)
    ensures LastTarget(lexer, lines, n, k) == Lowered(lines[i][1])
  {
    if i == n - 1 {
    } else {
      assert !Targets(lexer, lines, n - 1, k);
      LastTargetIsLast(lexer, lines, n - 1, k, i);
    }
  }

  /** And empty when none does. */
  lemma {:induction false} NoTargetIsEmpty(lexer: Lexer, lines: seq<Line>, n: nat, k: string)
    requires n <= |lines| && forall i :: 0 <= i < n ==> !Targets(lexer, lines, i, k)
    ensures LastTarget(lexer, lines, n, k) == ""
  {
    if n == 0 {
    } else {
      assert !Targets(lexer, lines, n - 1, k);
      NoTargetIsEmpty(lexer, lines, n - 1, k);
    }
  }

  /** Line `i` gives `k` this IPv6 address. */
  ghost predicate GivesV6(lexer: Lexer, lines: seq<Line>, i: nat, k: string, arpa: string)
    requires i < |lines|
  {
    |lines[i]| == 2 && lines[i][0] != "" && Lowered(lines[i][0]) == k
    && lines[i][1] != "" && lexer.address(lines[i][1]) == Some(V6(arpa))
  }

  ghost predicate GivesSomeV6(lexer: Lexer, lines: seq<Line>, i: nat, k: string)
    requires i < |lines|
  {
    exists arpa :: GivesV6(lexer, lines, i, k, arpa)
  }

  /** The IPv6 address that is kept is that of the first line that gives one. */
  lemma {:induction false} FirstV6IsFirst(lexer: Lexer, lines: seq<Line>, n: nat, k: string)
    requires n <= |lines|
    ensures (forall i :: 0 <= i < n ==> !GivesSomeV6(lexer, lines, i, k)) ==> FirstV6(lexer, lines, n, k) == None
    ensures forall i, arpa :: 0 <= i < n && GivesV6(lexer, lines, i, k, arpa)
                              && (forall j :: 0 <= j < i ==> !GivesSomeV6(lexer, lines, j, k)) ==>
              FirstV6(lexer, lines, n, k) == Some(arpa)
  {
    if n == 0 {
    } else {
      FirstV6IsFirst(lexer, lines, n - 1, k);
      if Names(lines, n - 1, k) && lexer.address(lines[n - 1][1]).Some? && lexer.address(lines[n - 1][1]).value.V6? {
        assert GivesV6(lexer, lines, n - 1, k, lexer.address(lines[n - 1][1]).value.arpa);
        assert GivesSomeV6(lexer, lines, n - 1, k);
      }
    }
  }

  /** A rule is one for an address exactly when some line gives its key one, or makes it a reverse entry. */
  lemma {:induction false} HasAddressIff(lexer: Lexer, lines: seq<Line>, n: nat, k: string)
    requires n <= |lines|
    ensures HasAddress(lexer, lines, n, k) <==>
      exists i :: 0 <= i < n && ((Names(lines, i, k) && lexer.address(lines[i][1]).Some?)
                                 || ReverseKey(lexer, lines, i) == Some(k))
  {
    if n == 0 {
    } else {
      HasAddressIff(lexer, lines, n - 1, k);
    }
  }

  /** Which lines make a reverse entry, and under which key. */
  lemma ReverseKeyIs(lexer: Lexer, lines: seq<Line>, i: nat)
    requires i < |lines| && |lines[i]| == 2 && lines[i][0] != "" && lines[i][1] != ""
    ensures !lexer.createPTR || '*' in lines[i][0] ==> ReverseKey(lexer, lines, i) == None
    ensures lexer.createPTR && '*' !in lines[i][0] ==>
      match lexer.address(lines[i][1])
      case Some(V4(arpa)) => ReverseKey(lexer, lines, i) == Some("=" + arpa)
      case Some(V6(_)) =>
        var first := FirstV6(lexer, lines, i + 1, Lowered(lines[i][0]));
        first.Some? && ReverseKey(lexer, lines, i) == Some("=" + first.value)
      case None =>
        HasAddress(lexer, lines, i, Lowered(lines[i][0])) || ReverseKey(lexer, lines, i) == None
  {
    StarsAreKept(lines[i][0]);
  }

  lemma StarsAreKept(s: string)
    ensures '*' in Lowered(s) <==> '*' in s
  {
    if '*' in s {
      var i :| 0 <= i < |s| && s[i] == '*';
      assert Lowered(s)[i] == '*';
    }
    if '*' in Lowered(s) {
      var i :| 0 <= i < |s| && Lowered(s)[i] == '*';
      assert s[i] == '*';
    }
  }

  const NO_RULE := CloakedName("", false, 0, None)

  /** The entry for `k`, if there is one, is what the first `n` lines say. */
  ghost predicate Records(lexer: Lexer, lines: seq<Line>, n: nat, rules: Rules, k: string)
    requires n <= |lines|
  {
    var rule := RuleFor(lexer, lines, n, k);
    && (k in rules <==> rule.lineNo > 0)
    && (if k in rules then rules[k] == rule else rule == NO_RULE)
  }

  function Entry(rules: Rules, k: string): CloakedName {
    if k in rules then rules[k] else NO_RULE
  }

  /** The rule of a line's own name after the line, number `n` counted from one. */
  function Updated(lexer: Lexer, rule: CloakedName, n: nat, target: string): CloakedName {
    match lexer.address(target)
    case None => rule.(target := Lowered(target), lineNo := n)
    case Some(V4(_)) => rule.(isIP := true, lineNo := n)
    case Some(V6(arpa)) =>
      rule.(isIP := true, lineNo := n, firstV6 := if rule.firstV6.Some? then rule.firstV6 else Some(arpa))
  }

  /** The table after the next line; none where the loader indexes an empty list. */
  function AddLine(lexer: Lexer, rules: Rules, n: nat, line: Line): Option<Rules> {
    if !IsRule(line) then Some(rules)
    else
      var k := KeyOf(line);
      var rule := Updated(lexer, Entry(rules, k), n, line[1]);
      var named := rules[k := rule];
      if !lexer.createPTR || '*' in k || !rule.isIP then Some(named)
      else
        var address := lexer.address(line[1]);
        if address.Some? && address.value.V4? then Some(WithReverse(named, n, "=" + address.value.arpa))
        else if rule.firstV6.Some? then Some(WithReverse(named, n, "=" + rule.firstV6.value))
        else None
  }

  function WithReverse(rules: Rules, n: nat, k: string): Rules {
    rules[k := Entry(rules, k).(isIP := true, lineNo := n)]
  }

  /** What one more line changes in what the lines say about `k`. */
  lemma RuleAfterLine(lexer: Lexer, lines: seq<Line>, n: nat, k: string)
    requires 0 < n <= |lines|
    ensures
      var before := RuleFor(lexer, lines, n - 1, k);
      var named := if Names(lines, n - 1, k) then Updated(lexer, before, n, lines[n - 1][1]) else before;
      RuleFor(lexer, lines, n, k) ==
      if ReverseKey(lexer, lines, n - 1) == Some(k) then named.(isIP := true, lineNo := n) else named
  {
  }

  /** The reverse entry of a line, from the updated rule of its name. */
  lemma ReverseOfLine(lexer: Lexer, lines: seq<Line>, n: nat)
    requires 0 < n <= |lines| && IsRule(lines[n - 1])
    ensures var k, address := KeyOf(lines[n - 1]), lexer.address(lines[n - 1][1]);
      var rule := Updated(lexer, RuleFor(lexer, lines, n - 1, k), n, lines[n - 1][1]);
      && (Reverses(lexer, lines, n - 1) <==> lexer.createPTR && '*' !in k && rule.isIP)
      && FirstV6(lexer, lines, n, k) == rule.firstV6
  {
  }

  lemma LineIsReflected(lexer: Lexer, lines: seq<Line>, n: nat, rules: Rules, k: string)
    requires 0 < n <= |lines| && Records(lexer, lines, n - 1, rules, k)
    requires IsRule(lines[n - 1]) ==> Records(lexer, lines, n - 1, rules, KeyOf(lines[n - 1]))
    ensures var after := AddLine(lexer, rules, n, lines[n - 1]);
      && (after.None? <==> Breaks(lexer, lines, n - 1))
      && (after.Some? ==> Records(lexer, lines, n, after.value, k))
  {
    RuleAfterLine(lexer, lines, n, k);
    if IsRule(lines[n - 1]) {
      ReverseOfLine(lexer, lines, n);
      RuleAfterLine(lexer, lines, n, KeyOf(lines[n - 1]));
    }
  }

  /** The table the file describes, unless a line needs an IPv6 address its name does not have. */
  method LoadRules(lexer: Lexer, lines: seq<Line>) returns (r: Option<Rules>)
    requires LowerArpa(lexer)
    ensures r.None? <==> exists i :: 0 <= i < |lines| && Breaks(lexer, lines, i)
    ensures r.Some? ==> forall k :: Records(lexer, lines, |lines|, r.value, k)
    ensures r.Some? ==> FollowersOnDistinctLines(r.value) && forall k :: k in r.value ==> Lowered(k) == k
  {
    var rules: Rules := map[];
    var n := 0;
    while n < |lines|
      invariant 0 <= n <= |lines|
      invariant forall i :: 0 <= i < n ==> !Breaks(lexer, lines, i)
      invariant forall k :: Records(lexer, lines, n, rules, k)
    {
      ghost var before := rules;
      n := n + 1;
      var after := AddLine(lexer, rules, n, lines[n - 1]);
      LineIsReflected(lexer, lines, n, before, "");
      forall k
        ensures after.Some? ==> Records(lexer, lines, n, after.value, k)
      {
        LineIsReflected(lexer, lines, n, before, k);
      }
      if after.None? {
        assert Breaks(lexer, lines, n - 1);
        return None;
      }
      rules := after.value;
    }
    LinesAreDistinct(lexer, lines, rules);
    return Some(rules);
  }

  lemma {:induction false} ReverseIsLower(lexer: Lexer, lines: seq<Line>, n: nat, k: string)
    requires LowerArpa(lexer) && n <= |lines|
    ensures var first := FirstV6(lexer, lines, n, k); first.Some? ==> Lowered(first.value) == first.value
  {
    if n == 0 {
    } else {
      ReverseIsLower(lexer, lines, n - 1, k);
    }
  }

  lemma TouchedIsLower(lexer: Lexer, lines: seq<Line>, i: nat, k: string)
    requires LowerArpa(lexer) && i < |lines| && Touches(lexer, lines, i, k)
    ensures Lowered(k) == k
  {
    if Names(lines, i, k) {
      LoweredTwice(lines[i][0]);
    } else {
      assert Reverses(lexer, lines, i);
      ReverseIsLower(lexer, lines, i + 1, KeyOf(lines[i]));
      assert forall s :: Lowered(s) == s ==> Lowered("=" + s) == "=" + s;
    }
  }

  /** Rules that follow a target are no reverse entries, so each has a line of its own. */
  lemma LinesAreDistinct(lexer: Lexer, lines: seq<Line>, rules: Rules)
    requires LowerArpa(lexer) && forall k :: Records(lexer, lines, |lines|, rules, k)
    ensures FollowersOnDistinctLines(rules) && forall k :: k in rules ==> Lowered(k) == k
  {
    forall k | k in rules
      ensures 0 < rules[k].lineNo <= |lines| && Lowered(k) == k
      ensures rules[k].FollowsTarget() ==> Names(lines, rules[k].lineNo - 1, k)
    {
      assert Records(lexer, lines, |lines|, rules, k);
      var last := rules[k].lineNo - 1;
      TouchedIsLower(lexer, lines, last, k);
      if ReverseKey(lexer, lines, last) == Some(k) {
        AddressStays(lexer, lines, last + 1, |lines|, k);
      }
    }
  }

  lemma {:induction false} AddressStays(lexer: Lexer, lines: seq<Line>, m: nat, n: nat, k: string)
    requires m <= n <= |lines| && HasAddress(lexer, lines, m, k)
    ensures HasAddress(lexer, lines, n, k)
  {
    if m == n {
    } else {
      AddressStays(lexer, lines, m, n - 1, k);
    }
  }

  /** A name with an IPv4 address, no IPv6 address, and then a name target: the second line breaks the loader. */
  lemma NameAfterIPv4Breaks(lexer: Lexer, arpa: string)
    requires lexer.createPTR && lexer.address("1.2.3.4") == Some(V4(arpa)) && lexer.address("b") == None
    ensures Breaks(lexer, [["a", "1.2.3.4"], ["a", "b"]], 1)
  {
    var lines := [["a", "1.2.3.4"], ["a", "b"]];
    assert lines[0] == ["a", "1.2.3.4"] && lines[1] == ["a", "b"];
    assert Lowered("a") == "a";
    assert HasAddress(lexer, lines, 1, "a");
    assert FirstV6(lexer, lines, 1, "a") == None;
    assert FirstV6(lexer, lines, 2, "a") == None;
  }

  /** And so does a name target for a key that a line before has made a reverse entry. */
  lemma NameForReverseEntryBreaks(lexer: Lexer, arpa: string, lines: seq<Line>)
    requires lexer.createPTR && lexer.address("1.2.3.4") == Some(V4(arpa)) && lexer.address("b") == None
    requires Lowered(arpa) == arpa && '*' !in arpa && lines == [["a", "1.2.3.4"], ["=" + arpa, "b"]]
    ensures Breaks(lexer, lines, 1)
  {
    var k := "=" + arpa;
    assert lines[0] == ["a", "1.2.3.4"] && lines[1] == [k, "b"];
    assert k[0] == '=' && "a"[0] == 'a';
    assert Lowered("a") == "a" && Lowered(k) == k;
    assert Reverses(lexer, lines, 0);
    assert ReverseKey(lexer, lines, 0) == Some(k);
    assert HasAddress(lexer, lines, 1, k);
    assert FirstV6(lexer, lines, 1, k) == None;
    assert FirstV6(lexer, lines, 2, k) == None;
  }
}
