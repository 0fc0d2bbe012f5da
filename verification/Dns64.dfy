/** Embedding IPv4 addresses in IPv6 prefixes, and discovering the prefix from such an address. */
module Dns64 {
  import opened Common

  type Bytes = seq<byte>

  /** Where octet `i` of an IPv4 address goes after a prefix of `start` octets: octet 8 is left alone. */
  function Place(start: nat, i: nat): nat {
    if start <= 8 <= start + i then start + i + 1 else start + i
  }

  /** The address is the prefix with the IPv4 address at its places, and is the prefix elsewhere. */
  ghost predicate Embeds(ipv6: Bytes, ipv4: Bytes, prefix: Bytes, start: nat)
    requires |ipv4| == 4 && |prefix| == 16
  {
    && |ipv6| == 16 && (forall i :: 0 <= i < 4 ==> Place(start, i) < 16)
    && (forall i :: 0 <= i < 4 ==> ipv6[Place(start, i)] == ipv4[i])
    && (forall k :: 0 <= k < 16 && (forall i :: 0 <= i < 4 ==> k != Place(start, i)) ==> ipv6[k] == prefix[k])
  }

  /** An address of any length up to 16 octets, filled up with zeros. */
  function Padded(ip: Bytes): (r: Bytes)
    requires |ip| <= 16
    ensures |r| == 16 && r[..|ip|] == ip && forall i :: |ip| <= i < 16 ==> r[i] == 0
  {
    ip + seq(16 - |ip|, _ => 0)
  }

  /** The embedded address; `None` stands for an index past its end. */
  method TranslateToIPv6(ipv4: Bytes, ip: Bytes, n: nat) returns (r: Option<Bytes>)
    requires |ipv4| == 4 && |ip| <= 16 && n <= 128
    ensures r.Some? <==> n < 104
    ensures r.Some? ==> Embeds(r.value, ipv4, Padded(ip), n / 8) && r.value[8] == Padded(ip)[8]
  {
    var prefix := Padded(ip);
    var ipv6 := new byte[16](i requires 0 <= i < 16 => prefix[i]);
    var ipShift := n / 8;
    for i := 0 to 4
      invariant ipShift == if n / 8 <= 8 < n / 8 + i then n / 8 + 1 else n / 8
      invariant forall j :: 0 <= j < i ==> Place(n / 8, j) < 16 && ipv6[Place(n / 8, j)] == ipv4[j]
      invariant forall k :: 0 <= k < 16 && (forall j :: 0 <= j < i ==> k != Place(n / 8, j)) ==> ipv6[k] == prefix[k]
    {
      if ipShift + i == 8 {
        ipShift := ipShift + 1;
      }
      if ipShift + i >= 16 {
        return None;
      }
      ipv6[ipShift + i] := ipv4[i];
    }
    assert Place(n / 8, 3) < 16;
    return Some(ipv6[..]);
  }

  /** 192.0.0.170 and 192.0.0.171, section 3 of RFC 7050. */
  predicate IsWellKnown(a: byte, b: byte, c: byte, d: byte) {
    a == 192 && b == 0 && c == 0 && (d == 170 || d == 171)
  }

  /** The octets of the prefix an address shows, in the order the prefix lengths are tried; 0 if none. */
  function PrefixEnd(ipv6: Bytes): nat
    requires |ipv6| == 16
  {
    if IsWellKnown(ipv6[12], ipv6[13], ipv6[14], ipv6[15]) then 12
    else if IsWellKnown(ipv6[9], ipv6[10], ipv6[11], ipv6[12]) then 8
    else if IsWellKnown(ipv6[7], ipv6[9], ipv6[10], ipv6[11]) then 7
    else if IsWellKnown(ipv6[6], ipv6[7], ipv6[9], ipv6[10]) then 6
    else if IsWellKnown(ipv6[5], ipv6[6], ipv6[7], ipv6[9]) then 5
    else if IsWellKnown(ipv6[4], ipv6[5], ipv6[6], ipv6[7]) then 4
    else 0
  }

  /** The prefix lengths of section 2.2 of RFC 6052, in octets. */
  predicate IsPrefixLength(start: nat) {
    start in {4, 5, 6, 7, 8, 12}
  }

  ghost predicate ZeroFrom(prefix: Bytes, start: nat) {
    forall k :: start <= k < |prefix| ==> prefix[k] == 0
  }

  datatype Prefix = Prefix(ip: Bytes, bits: nat)

  /** The address shows a well-known one after a prefix of `start` octets. */
  predicate Shows(ipv6: Bytes, start: nat)
    requires |ipv6| == 16 && IsPrefixLength(start)
  {
    var octets := [ipv6[Place(start, 0)], ipv6[Place(start, 1)], ipv6[Place(start, 2)], ipv6[Place(start, 3)]];
    octets == [192, 0, 0, 170] || octets == [192, 0, 0, 171]
  }

  function Discovered(ipv6: Bytes): (r: Option<Prefix>)
    requires |ipv6| == 16
    ensures r.Some? ==> var start := r.value.bits / 8;
      && IsPrefixLength(start) && r.value.bits == 8 * start && Shows(ipv6, start)
      && |r.value.ip| == 16 && r.value.ip[..start] == ipv6[..start] && ZeroFrom(r.value.ip, start)
  {
    var start := PrefixEnd(ipv6);
    if start == 0 then None else Some(Prefix(ipv6[..start] + seq(16 - start, _ => 0), 8 * start))
  }

  /** Of the prefix lengths an address could have, the longest is taken. */
  lemma LongestIsDiscovered(ipv6: Bytes, start: nat)
    requires |ipv6| == 16 && IsPrefixLength(start) && Shows(ipv6, start)
    ensures Discovered(ipv6).Some? && 8 * start <= Discovered(ipv6).value.bits
  {
  }

  /** The octets that matter, read off an embedded address. */
  lemma EmbeddedOctets(ipv6: Bytes, ipv4: Bytes, prefix: Bytes, start: nat)
    requires |ipv4| == 4 && |prefix| == 16 && IsPrefixLength(start)
    requires Embeds(ipv6, ipv4, prefix, start)
    ensures forall k :: 0 <= k < start ==> ipv6[k] == prefix[k]
    ensures ipv6[Place(start, 0)] == ipv4[0] && ipv6[Place(start, 1)] == ipv4[1]
    ensures ipv6[Place(start, 2)] == ipv4[2] && ipv6[Place(start, 3)] == ipv4[3]
    ensures forall k :: Place(start, 3) < k < 16 ==> ipv6[k] == prefix[k]
  {
  }

  /** Discovery applied to an embedded well-known address gives the prefix back. */
  lemma DiscoveryRecoversPrefix(ipv6: Bytes, ipv4: Bytes, prefix: Bytes, start: nat)
    requires ipv4 == [192, 0, 0, 170] || ipv4 == [192, 0, 0, 171]
    requires |prefix| == 16 && IsPrefixLength(start) && ZeroFrom(prefix, start)
    requires Embeds(ipv6, ipv4, prefix, start)
    ensures Discovered(ipv6) == Some(Prefix(prefix, 8 * start))
  {
    EmbeddedOctets(ipv6, ipv4, prefix, start);
    assert PrefixEnd(ipv6) == start;
    assert ipv6[..start] + seq(16 - start, _ => 0) == prefix;
  }

  ghost function Found(answers: seq<Bytes>): set<Prefix> {
    set i | 0 <= i < |answers| && |answers[i]| == 16 && Discovered(answers[i]).Some? :: Discovered(answers[i]).value
  }

  ghost predicate EachOnce(prefixes: seq<Prefix>) {
    forall i, j :: 0 <= i < j < |prefixes| ==> prefixes[i] != prefixes[j]
  }

  lemma FoundAppend(answers: seq<Bytes>, i: nat)
    requires i < |answers|
    ensures Found(answers[..i + 1]) == Found(answers[..i]) +
      if |answers[i]| == 16 && Discovered(answers[i]).Some? then {Discovered(answers[i]).value} else {}
  {
  }

  /** Every prefix the answers show, once each; an error when there is none. */
  method FetchPref64(answers: seq<Bytes>) returns (r: Option<seq<Prefix>>)
    ensures r.Some? <==> Found(answers) != {}
    ensures r.Some? ==> EachOnce(r.value) && forall p :: p in r.value <==> p in Found(answers)
  {
    var uniq, prefixes := {}, [];
    for i := 0 to |answers|
      invariant uniq == Found(answers[..i]) && EachOnce(prefixes)
      invariant forall p :: p in prefixes <==> p in uniq
    {
      FoundAppend(answers, i);
      if |answers[i]| == 16 {
        var found := Discovered(answers[i]);
        if found.Some? && found.value !in uniq {
          prefixes := prefixes + [found.value];
          uniq := uniq + {found.value};
        }
      }
    }
    assert answers[..|answers|] == answers;
    if |prefixes| == 0 {
      return None;
    }
    assert prefixes[0] in prefixes;
    return Some(prefixes);
  }

  // ------------------------------------------------------------- the prefixes of the plugin

  /** A prefix that leaves room for an IPv4 address. */
  predicate HasRoom(prefix: Prefix) {
    |prefix.ip| <= 16 && prefix.bits <= 96
  }

  /** A prefix as it is written in the configuration, once parsed. */
  predicate Parsed(prefix: Prefix) {
    |prefix.ip| <= 16 && prefix.bits <= 128
  }

  class PluginDNS64 {
    var pref64: seq<Prefix>

    ghost predicate Valid()
      reads this
    {
      forall i :: 0 <= i < |pref64| ==> HasRoom(pref64[i])
    }

    constructor ()
      ensures Valid() && pref64 == []
    {
      pref64 := [];
    }

    /** Takes the configured prefixes, up to the first that does not parse or is longer than 96 bits. */
    method Init(configured: seq<Option<Prefix>>) returns (ok: bool)
      requires Valid() && forall i :: 0 <= i < |configured| && configured[i].Some? ==> Parsed(configured[i].value)
      modifies this
      ensures Valid()
      ensures ok <==> forall i :: 0 <= i < |configured| ==> configured[i].Some? && configured[i].value.bits <= 96
      ensures ok ==> |pref64| == |old(pref64)| + |configured|
      ensures ok ==> forall i :: 0 <= i < |configured| ==> pref64[|old(pref64)| + i] == configured[i].value
    {
      for i := 0 to |configured|
        invariant Valid() && |pref64| == |old(pref64)| + i
        invariant forall j :: 0 <= j < i ==> configured[j].Some? && configured[j].value.bits <= 96
        invariant forall j :: 0 <= j < i ==> pref64[|old(pref64)| + j] == configured[j].value
      {
        if configured[i].None? {
          return false;
        }
        if configured[i].value.bits > 96 {
          return false;
        }
        pref64 := pref64 + [configured[i].value];
      }
      return true;
    }

    /** Takes the prefixes the resolvers' answers show, if there are any. */
    method Refresh(answers: seq<Bytes>) returns (ok: bool)
      requires Valid()
      modifies this
      ensures Valid() && (ok <==> Found(answers) != {})
      ensures if ok then forall p :: p in pref64 <==> p in Found(answers) else pref64 == old(pref64)
    {
      var found := FetchPref64(answers);
      if found.None? {
        return false;
      }
      forall i | 0 <= i < |found.value|
        ensures HasRoom(found.value[i])
      {
        assert found.value[i] in Found(answers);
      }
      pref64 := found.value;
      return true;
    }

    /** The addresses given for an IPv4 address: one for each prefix, none out of bounds. */
    method Synthesize(ipv4: Bytes) returns (ipv6s: seq<Bytes>)
      requires Valid() && |ipv4| == 4
      ensures |ipv6s| == |pref64|
      ensures forall i :: 0 <= i < |pref64| ==>
        HasRoom(pref64[i]) && Embeds(ipv6s[i], ipv4, Padded(pref64[i].ip), pref64[i].bits / 8)
    {
      ipv6s := [];
      for i := 0 to |pref64|
        invariant |ipv6s| == i
        invariant forall j :: 0 <= j < i ==>
          HasRoom(pref64[j]) && Embeds(ipv6s[j], ipv4, Padded(pref64[j].ip), pref64[j].bits / 8)
      {
        var ipv6 := TranslateToIPv6(ipv4, pref64[i].ip, pref64[i].bits);
        ipv6s := ipv6s + [ipv6.value];
      }
    }
  }
}
