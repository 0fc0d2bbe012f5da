/**
 * The crit-bit tree behind the suffix index: every tree built by insertions
 * finds, for every string, the longest key that starts it.
 */
module CritBit {
  import opened Common
  import DomainRules

  // ------------------------------------------------------------- bits

  /** Bit `i` of a number, the lowest being bit 1. */
  predicate Bit(n: nat, i: nat) {
    i > 0 && if i == 1 then n % 2 == 1 else Bit(n / 2, i - 1)
  }

  /** The highest bit in which two numbers differ, 0 if they are equal. */
  function HighestDifference(a: nat, b: nat): (i: nat)
    ensures i == 0 <==> a == b
  {
    if a == b then 0 else 1 + HighestDifference(a / 2, b / 2)
  }

  lemma {:induction false} BitsDiffer(a: nat, b: nat, i: nat)
    ensures i > HighestDifference(a, b) ==> Bit(a, i) == Bit(b, i)
    ensures a != b && i == HighestDifference(a, b) ==> Bit(a, i) != Bit(b, i)
  {
    if a != b && i > 1 {
      BitsDiffer(a / 2, b / 2, i - 1);
    } else if a != b && i == 1 {
      assert a / 2 == b / 2 ==> a % 2 != b % 2;
    }
  }

  /** Bit `i` of the character at `offset`; a key that has ended has no bits there. */
  predicate KeyBit(key: string, offset: nat, i: nat) {
    offset < |key| && Bit(key[offset] as int, i)
  }

  // ------------------------------------------------------------- trees

  datatype Tree<V> =
    | Leaf(key: string, value: V)
    | Node(offset: nat, bit: nat, cont: bool, left: Tree<V>, right: Tree<V>)

  /** The direction a key takes at a node. */
  predicate Turns(key: string, offset: nat, bit: nat, cont: bool) {
    offset < |key| && (KeyBit(key, offset, bit) || cont)
  }

  ghost function Keys<V>(t: Tree<V>): set<string> {
    match t
    case Leaf(key, _) => {key}
    case Node(_, _, _, left, right) => Keys(left) + Keys(right)
  }

  /** The leaf a key is led to. */
  function Search<V>(t: Tree<V>, key: string): (leaf: Tree<V>)
    ensures leaf.Leaf? && leaf.key in Keys(t)
  {
    match t
    case Leaf(_, _) => t
    case Node(offset, bit, cont, left, right) => Search(if Turns(key, offset, bit, cont) then right else left, key)
  }

  function LongestPrefix<V>(t: Tree<V>, s: string): Option<(string, V)> {
    match t
    case Leaf(key, value) => if key <= s then Some((key, value)) else None
    case Node(offset, bit, cont, left, right) =>
      if Turns(s, offset, bit, cont) then
        var found := LongestPrefix(right, s);
        if found.Some? then found else LongestPrefix(left, s)
      else LongestPrefix(left, s)
  }

  // ------------------------------------------------------------- critical bit

  /** How many characters two keys have in common at their start. */
  function SharedPrefix(a: string, b: string): (n: nat)
    ensures n <= |a| && n <= |b| && a[..n] == b[..n]
    ensures n < |a| && n < |b| ==> a[n] != b[n]
  {
    if a == "" || b == "" || a[0] != b[0] then 0
    else
      var n := 1 + SharedPrefix(a[1..], b[1..]);
      assert a[..n] == [a[0]] + a[1..][..n - 1] && b[..n] == [b[0]] + b[1..][..n - 1];
      n
  }

  /** Where a node that tells two keys apart has to look: at a bit, or at which of them has ended. */
  datatype Critical = Critical(offset: nat, bit: nat, cont: bool)

  function CodeAt(key: string, offset: nat): nat {
    if offset < |key| then key[offset] as int else 0
  }

  function CriticalBit(a: string, b: string): Critical {
    var offset := SharedPrefix(a, b);
    Critical(offset, HighestDifference(CodeAt(a, offset), CodeAt(b, offset)), !(offset < |a| && offset < |b|))
  }

  /** The keys are alike before the critical bit. */
  ghost predicate Agree(a: string, b: string, offset: nat, bit: nat) {
    && offset <= |a| && offset <= |b| && a[..offset] == b[..offset]
    && forall i :: i > bit ==> KeyBit(a, offset, i) == KeyBit(b, offset, i)
  }

  lemma {:induction false} ZeroHasNoBits(i: nat)
    ensures !Bit(0, i)
  {
    if i <= 1 {
    } else {
      ZeroHasNoBits(i - 1);
    }
  }

  lemma KeyBitIsCodeBit(key: string, offset: nat, i: nat)
    ensures KeyBit(key, offset, i) == Bit(CodeAt(key, offset), i)
  {
  }

  /** At the critical bit two different keys part, and not before. */
  lemma KeysPart(a: string, b: string)
    requires a != b
    ensures var c := CriticalBit(a, b);
      && Agree(a, b, c.offset, c.bit) && Turns(a, c.offset, c.bit, c.cont) != Turns(b, c.offset, c.bit, c.cont)
      && (!c.cont ==> c.offset < |a| && c.offset < |b|)
  {
    var c := CriticalBit(a, b);
    forall i: nat
      ensures i > c.bit ==> KeyBit(a, c.offset, i) == KeyBit(b, c.offset, i)
      ensures !c.cont && i == c.bit ==> KeyBit(a, c.offset, i) != KeyBit(b, c.offset, i)
    {
      KeyBitIsCodeBit(a, c.offset, i);
      KeyBitIsCodeBit(b, c.offset, i);
      BitsDiffer(CodeAt(a, c.offset), CodeAt(b, c.offset), i);
    }
    assert a[..|a|] == a && b[..|b|] == b;
  }

  // ------------------------------------------------------------- insertion

  /** A node that looks later: past the offset, or at a lower bit there. */
  predicate LooksLater<V>(t: Tree<V>, c: Critical) {
    t.Node? && (t.offset > c.offset || (t.offset == c.offset && t.bit < c.bit))
  }

  function Place<V>(t: Tree<V>, key: string, value: V, c: Critical): Tree<V> {
    if t.Leaf? || LooksLater(t, c) then
      if Turns(key, c.offset, c.bit, c.cont) then Node(c.offset, c.bit, c.cont, t, Leaf(key, value))
      else Node(c.offset, c.bit, c.cont, Leaf(key, value), t)
    else if Turns(key, t.offset, t.bit, t.cont) then t.(right := Place(t.right, key, value, c))
    else t.(left := Place(t.left, key, value, c))
  }

  /** A key that is there keeps its value. */
  function Insert<V>(t: Tree<V>, key: string, value: V): Tree<V> {
    var found := Search(t, key).key;
    if found == key then t else Place(t, key, value, CriticalBit(found, key))
  }

  // ------------------------------------------------------------- validity

  /** Every key is on the side it turns to. */
  ghost predicate Sorted<V>(offset: nat, bit: nat, cont: bool, left: Tree<V>, right: Tree<V>) {
    && (forall k :: k in Keys(left) ==> !Turns(k, offset, bit, cont))
    && (forall k :: k in Keys(right) ==> Turns(k, offset, bit, cont))
  }

  /** All keys are alike before the node's bit. */
  ghost predicate Alike(keys: set<string>, offset: nat, bit: nat) {
    forall a, b :: a in keys && b in keys ==> Agree(a, b, offset, bit)
  }

  /** Below a node, nodes look no earlier. */
  ghost predicate NotBefore<V>(t: Tree<V>, offset: nat, bit: nat) {
    t.Node? ==> t.offset > offset || (t.offset == offset && t.bit <= bit)
  }

  /** Some key goes on at the offset. */
  ghost predicate GoesOn(keys: set<string>, offset: nat) {
    exists k :: k in keys && offset < |k|
  }

  ghost predicate NodeValid<V>(c: Critical, left: Tree<V>, right: Tree<V>) {
    && Sorted(c.offset, c.bit, c.cont, left, right) && Alike(Keys(left) + Keys(right), c.offset, c.bit)
    && NotBefore(left, c.offset, c.bit) && NotBefore(right, c.offset, c.bit)
    && (c.cont || GoesOn(Keys(left), c.offset))
  }

  ghost predicate Valid<V>(t: Tree<V>) {
    t.Node? ==> Valid(t.left) && Valid(t.right) && NodeValid(Critical(t.offset, t.bit, t.cont), t.left, t.right)
  }

  /** A key that goes on past another is led away from it, at the node that asks which of them has ended. */
  lemma {:induction false} EndedIsPassed<V>(t: Tree<V>, key: string)
    requires Valid(t) && t.Node? && t.offset < |key|
    ensures |Search(t, key).key| != t.offset
  {
    var found := Search(t, key).key;
    if Turns(key, t.offset, t.bit, t.cont) {
      assert found in Keys(t.right);
    } else if |found| == t.offset {
      var k :| k in Keys(t.left) && t.offset < |k|;
      assert found in Keys(t.left) && k in Keys(t.left) && k != found;
      assert t.left.Node?;
      assert Agree(found, found, t.left.offset, t.left.bit);
      assert t.left.offset == t.offset;
      EndedIsPassed(t.left, key);
    }
  }

  /** What is alike up to a later place is alike, and turns alike, at the critical bit. */
  lemma LaterKeysTurnAlike<V>(t: Tree<V>, key: string, k: string)
    requires Valid(t) && k in Keys(t) && Search(t, key).key != key
    requires var c := CriticalBit(Search(t, key).key, key); t.Leaf? || LooksLater(t, c)
    ensures var found, c := Search(t, key).key, CriticalBit(Search(t, key).key, key);
      Agree(found, k, c.offset, c.bit) && Turns(k, c.offset, c.bit, c.cont) == Turns(found, c.offset, c.bit, c.cont)
  {
    var found, c := Search(t, key).key, CriticalBit(Search(t, key).key, key);
    KeysPart(found, key);
    if t.Node? {
      assert Agree(found, k, t.offset, t.bit);
      if t.offset > c.offset {
        assert found[..t.offset][..c.offset] == found[..c.offset] && k[..t.offset][..c.offset] == k[..c.offset];
        assert found[c.offset] == found[..t.offset][c.offset] == k[..t.offset][c.offset] == k[c.offset];
      } else if c.cont {
        if |key| > c.offset {
          EndedIsPassed(t, key);
        }
        EndedShows(found, c);
        assert KeyBit(k, c.offset, c.bit);
      }
    }
  }

  /** The longer of two keys has the critical bit set, if there is one. */
  lemma EndedShows(found: string, c: Critical)
    requires c.cont && c.offset < |found| && c.bit == HighestDifference(found[c.offset] as int, 0) > 0
    ensures KeyBit(found, c.offset, c.bit)
  {
    BitsDiffer(found[c.offset] as int, 0, c.bit);
    ZeroHasNoBits(c.bit);
  }

  // ------------------------------------------------------------- insertions keep trees valid

  lemma {:induction false} PlaceKeys<V>(t: Tree<V>, key: string, value: V, c: Critical)
    ensures Keys(Place(t, key, value, c)) == Keys(t) + {key}
  {
    if t.Leaf? || LooksLater(t, c) {
    } else {
      PlaceKeys(if Turns(key, t.offset, t.bit, t.cont) then t.right else t.left, key, value, c);
    }
  }

  /** A key that is there is found. */
  lemma {:induction false} SearchFinds<V>(t: Tree<V>, key: string)
    requires Valid(t) && key in Keys(t)
    ensures Search(t, key).key == key
  {
    if t.Leaf? {
    } else {
      SearchFinds(if Turns(key, t.offset, t.bit, t.cont) then t.right else t.left, key);
    }
  }

  /** All keys of the tree go to one side of the new node. */
  lemma AllTurnAlike<V>(t: Tree<V>, key: string)
    requires Valid(t) && Search(t, key).key != key
    requires var c := CriticalBit(Search(t, key).key, key); t.Leaf? || LooksLater(t, c)
    ensures var c := CriticalBit(Search(t, key).key, key);
      && (forall k :: k in Keys(t) ==> Turns(k, c.offset, c.bit, c.cont) != Turns(key, c.offset, c.bit, c.cont))
      && Alike(Keys(t) + {key}, c.offset, c.bit) && (c.cont || GoesOn(Keys(t), c.offset))
  {
    var found, c := Search(t, key).key, CriticalBit(Search(t, key).key, key);
    KeysPart(found, key);
    forall k | k in Keys(t)
      ensures Agree(found, k, c.offset, c.bit)
      ensures Turns(k, c.offset, c.bit, c.cont) == Turns(found, c.offset, c.bit, c.cont)
    {
      LaterKeysTurnAlike(t, key, k);
    }
  }

  lemma NewNodeIsValid<V>(t: Tree<V>, key: string, value: V)
    requires Valid(t) && Search(t, key).key != key
    requires var c := CriticalBit(Search(t, key).key, key); t.Leaf? || LooksLater(t, c)
    ensures Valid(Place(t, key, value, CriticalBit(Search(t, key).key, key)))
  {
    var c := CriticalBit(Search(t, key).key, key);
    var leaf := Leaf(key, value);
    AllTurnAlike(t, key);
    KeysPart(Search(t, key).key, key);
    if Turns(key, c.offset, c.bit, c.cont) {
      assert NodeValid(c, t, leaf);
    } else {
      assert Keys(leaf) + Keys(t) == Keys(t) + {key};
      assert c.cont || GoesOn(Keys(leaf), c.offset);
      assert NodeValid(c, leaf, t);
    }
  }

  /** Where the search goes on, the key is alike with all keys at the node. */
  lemma KeyIsAlike<V>(t: Tree<V>, key: string)
    requires Valid(t) && t.Node? && Search(t, key).key != key
    requires !LooksLater(t, CriticalBit(Search(t, key).key, key))
    ensures Alike(Keys(t) + {key}, t.offset, t.bit)
  {
    var found, c := Search(t, key).key, CriticalBit(Search(t, key).key, key);
    KeysPart(found, key);
    if t.offset < c.offset {
      assert found[..c.offset][..t.offset] == found[..t.offset] && key[..c.offset][..t.offset] == key[..t.offset];
      assert found[t.offset] == found[..c.offset][t.offset] == key[..c.offset][t.offset] == key[t.offset];
    }
    assert Agree(found, key, t.offset, t.bit);
    assert forall k :: k in Keys(t) ==> Agree(found, k, t.offset, t.bit);
  }

  /** A child that has got the key, on the side the key turns to, leaves its node valid. */
  lemma RightReplaced<V>(t: Tree<V>, key: string, right: Tree<V>)
    requires Valid(t) && t.Node? && Valid(right) && Keys(right) == Keys(t.right) + {key}
    requires Turns(key, t.offset, t.bit, t.cont) && NotBefore(right, t.offset, t.bit)
    requires Alike(Keys(t) + {key}, t.offset, t.bit)
    ensures Valid(t.(right := right))
  {
  }

  lemma LeftReplaced<V>(t: Tree<V>, key: string, left: Tree<V>)
    requires Valid(t) && t.Node? && Valid(left) && Keys(left) == Keys(t.left) + {key}
    requires !Turns(key, t.offset, t.bit, t.cont) && NotBefore(left, t.offset, t.bit)
    requires Alike(Keys(t) + {key}, t.offset, t.bit)
    ensures Valid(t.(left := left))
  {
  }

  lemma PlaceNotBefore<V>(t: Tree<V>, key: string, value: V, c: Critical, offset: nat, bit: nat)
    requires NotBefore(t, offset, bit) && (c.offset > offset || (c.offset == offset && c.bit <= bit))
    ensures NotBefore(Place(t, key, value, c), offset, bit)
  {
  }

  lemma {:induction false} PlaceKeepsValid<V>(t: Tree<V>, key: string, value: V)
    requires Valid(t) && Search(t, key).key != key
    ensures Valid(Place(t, key, value, CriticalBit(Search(t, key).key, key)))
  {
    var c := CriticalBit(Search(t, key).key, key);
    if t.Leaf? || LooksLater(t, c) {
      NewNodeIsValid(t, key, value);
    } else {
      KeyIsAlike(t, key);
      var child := if Turns(key, t.offset, t.bit, t.cont) then t.right else t.left;
      PlaceKeepsValid(child, key, value);
      PlaceKeys(child, key, value, c);
      PlaceNotBefore(child, key, value, c, t.offset, t.bit);
      if Turns(key, t.offset, t.bit, t.cont) {
        RightReplaced(t, key, Place(child, key, value, c));
      } else {
        LeftReplaced(t, key, Place(child, key, value, c));
      }
    }
  }

  // ------------------------------------------------------------- values

  /** The value stored with a key. */
  ghost predicate Stores<V>(t: Tree<V>, key: string, value: V) {
    match t
    case Leaf(k, v) => k == key && v == value
    case Node(_, _, _, left, right) => Stores(left, key, value) || Stores(right, key, value)
  }

  lemma {:induction false} PlaceStores<V>(t: Tree<V>, key: string, value: V, c: Critical, k: string, v: V)
    ensures Stores(Place(t, key, value, c), k, v) <==> Stores(t, k, v) || (k == key && v == value)
  {
    if t.Leaf? || LooksLater(t, c) {
    } else {
      PlaceStores(if Turns(key, t.offset, t.bit, t.cont) then t.right else t.left, key, value, c, k, v);
    }
  }

  /** The tree holds exactly the entries of a map. */
  ghost predicate Holds<V(!new)>(t: Tree<V>, entries: map<string, V>) {
    && Keys(t) == entries.Keys
    && forall k, v :: Stores(t, k, v) ==> k in entries && entries[k] == v
  }

  /** Inserting adds the key with its value, unless it is there already. */
  lemma InsertKeepsValid<V(!new)>(t: Tree<V>, entries: map<string, V>, key: string, value: V)
    requires Valid(t) && Holds(t, entries)
    ensures Valid(Insert(t, key, value))
    ensures Holds(Insert(t, key, value), if key in entries then entries else entries[key := value])
  {
    if key in entries {
      SearchFinds(t, key);
    } else {
      var c := CriticalBit(Search(t, key).key, key);
      PlaceKeepsValid(t, key, value);
      PlaceKeys(t, key, value, c);
      forall k, v | Stores(Place(t, key, value, c), k, v)
        ensures k in entries[key := value] && entries[key := value][k] == v
      {
        PlaceStores(t, key, value, c, k, v);
      }
    }
  }

  // ------------------------------------------------------------- lookups

  /** The key found starts the string, with its value, and every other key that starts it is shorter. */
  ghost predicate IsLongest<V>(t: Tree<V>, s: string, r: Option<(string, V)>) {
    match r
    case None => forall k :: k in Keys(t) ==> !(k <= s)
    case Some((key, value)) =>
      key in Keys(t) && key <= s && Stores(t, key, value) && forall k :: k in Keys(t) && k <= s ==> |k| <= |key|
  }

  /** A key that starts the string turns where the string does, or has ended. */
  lemma PrefixTurns(k: string, s: string, offset: nat, bit: nat, cont: bool)
    requires k <= s
    ensures Turns(k, offset, bit, cont) ==> Turns(s, offset, bit, cont)
    ensures Turns(s, offset, bit, cont) && !Turns(k, offset, bit, cont) ==> |k| <= offset
  {
  }

  lemma {:induction false} FindsLongest<V>(t: Tree<V>, s: string)
    requires Valid(t)
    ensures IsLongest(t, s, LongestPrefix(t, s))
  {
    if t.Leaf? {
    } else {
      FindsLongest(t.left, s);
      FindsLongest(t.right, s);
      forall k | k in Keys(t) && k <= s
        ensures Turns(k, t.offset, t.bit, t.cont) ==> Turns(s, t.offset, t.bit, t.cont)
        ensures Turns(s, t.offset, t.bit, t.cont) && !Turns(k, t.offset, t.bit, t.cont) ==> |k| <= t.offset
      {
        PrefixTurns(k, s, t.offset, t.bit, t.cont);
      }
    }
  }

  // ------------------------------------------------------------- whole tries

  datatype Trie<V> = Empty | Full(root: Tree<V>)

  function Add<V>(trie: Trie<V>, key: string, value: V): Trie<V> {
    Full(if trie.Empty? then Leaf(key, value) else Insert(trie.root, key, value))
  }

  function LookUp<V>(trie: Trie<V>, s: string): Option<(string, V)> {
    if trie.Empty? then None else LongestPrefix(trie.root, s)
  }

  /** The trie after a series of insertions, and the map it stands for: the first value of each key. */
  function Build<V>(entries: seq<(string, V)>): Trie<V> {
    if entries == [] then Empty
    else
      var (key, value) := entries[|entries| - 1];
      Add(Build(entries[..|entries| - 1]), key, value)
  }

  function FirstValues<V>(entries: seq<(string, V)>): map<string, V> {
    if entries == [] then map[]
    else
      var before, (key, value) := FirstValues(entries[..|entries| - 1]), entries[|entries| - 1];
      if key in before then before else before[key := value]
  }

  ghost predicate Represents<V(!new)>(trie: Trie<V>, entries: map<string, V>) {
    if trie.Empty? then entries == map[] else Valid(trie.root) && Holds(trie.root, entries)
  }

  lemma {:induction false} EveryTrieIsValid<V(!new)>(entries: seq<(string, V)>)
    ensures Represents(Build(entries), FirstValues(entries))
  {
    if entries == [] {
    } else {
      var before, last := entries[..|entries| - 1], entries[|entries| - 1];
      EveryTrieIsValid(before);
      if Build(before).Full? {
        InsertKeepsValid(Build(before).root, FirstValues(before), last.0, last.1);
      }
    }
  }

  lemma LookUpRepresents<V(!new)>(trie: Trie<V>, entries: map<string, V>, s: string)
    requires Represents(trie, entries)
    ensures var r, m := LookUp(trie, s), DomainRules.LongestPrefix(entries.Keys, s);
      r == if m.Some? then Some((m.value, entries[m.value])) else None
  {
    var r, m := LookUp(trie, s), DomainRules.LongestPrefix(entries.Keys, s);
    if trie.Full? {
      FindsLongest(trie.root, s);
      if r.Some? && m.Some? {
        SameLength(r.value.0, m.value, s);
      }
    }
  }

  lemma SameLength(a: string, b: string, s: string)
    requires a <= s && b <= s && |a| == |b|
    ensures a == b
  {
  }

  /** Whatever was inserted and in whatever order, a lookup gives the longest key that starts the string. */
  lemma LookUpIsLongestPrefix<V(!new)>(entries: seq<(string, V)>, s: string)
    ensures var r, m := LookUp(Build(entries), s), DomainRules.LongestPrefix(FirstValues(entries).Keys, s);
      r == if m.Some? then Some((m.value, FirstValues(entries)[m.value])) else None
  {
    EveryTrieIsValid(entries);
    LookUpRepresents(Build(entries), FirstValues(entries), s);
  }
}
