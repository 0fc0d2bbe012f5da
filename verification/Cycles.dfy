/** Cycles in a finite graph, walks that lead to them, and cycles without chords. */
module Cycles {

  type Graph = set<(string, string)>

  /** Nodes each of which has an edge to the next, and the last to the first. */
  ghost predicate IsCycle(graph: Graph, cycle: seq<string>) {
    && cycle != [] && (cycle[|cycle| - 1], cycle[0]) in graph
    && forall i :: 0 <= i < |cycle| - 1 ==> (cycle[i], cycle[i + 1]) in graph
  }

  /** The place after `i` on a cycle of `n` nodes. */
  function NextPlace(i: nat, n: nat): (j: nat)
    requires i < n
    ensures j < n
  {
    if i == n - 1 then 0 else i + 1
  }

  /** No node of the cycle has an edge to anywhere else on it. */
  ghost predicate Chordless(graph: Graph, cycle: seq<string>) {
    forall i, j :: 0 <= i < |cycle| && 0 <= j < |cycle| && (cycle[i], cycle[j]) in graph ==>
      j == NextPlace(i, |cycle|)
  }

  /** From the place after `i` round to `i`. */
  function Turned(cycle: seq<string>, i: nat): seq<string>
    requires i < |cycle|
  {
    cycle[i + 1..] + cycle[..i + 1]
  }

  lemma TurnedIsCycle(graph: Graph, cycle: seq<string>, i: nat)
    requires IsCycle(graph, cycle) && i < |cycle|
    ensures IsCycle(graph, Turned(cycle, i))
  {
  }

  /** The end of a cycle is a cycle, if its last node leads to where it starts. */
  lemma TailIsCycle(graph: Graph, cycle: seq<string>, at: nat)
    requires IsCycle(graph, cycle) && at < |cycle| && (cycle[|cycle| - 1], cycle[at]) in graph
    ensures IsCycle(graph, cycle[at..])
  {
  }

  /** Where there is a cycle there is one without chords. */
  lemma {:induction false} ChordlessCycle(graph: Graph, cycle: seq<string>) returns (short: seq<string>)
    requires IsCycle(graph, cycle)
    ensures IsCycle(graph, short) && Chordless(graph, short) && forall n :: n in short ==> n in cycle
    decreases |cycle|
  {
    if Chordless(graph, cycle) {
      short := cycle;
    } else {
      var i, j :| 0 <= i < |cycle| && 0 <= j < |cycle| && (cycle[i], cycle[j]) in graph && j != NextPlace(i, |cycle|);
      var turned, at := Turned(cycle, i), if j > i then j - i - 1 else |cycle| - 1 - i + j;
      assert turned[at] == cycle[j] && turned[|turned| - 1] == cycle[i];
      TurnedIsCycle(graph, cycle, i);
      TailIsCycle(graph, turned, at);
      short := ChordlessCycle(graph, turned[at..]);
      assert forall n :: n in turned[at..] ==> n in turned;
    }
  }

  lemma ChordlessIsDistinct(graph: Graph, cycle: seq<string>)
    requires IsCycle(graph, cycle) && Chordless(graph, cycle)
    ensures Distinct(cycle)
  {
    forall i, j | 0 <= i < j < |cycle|
      ensures cycle[i] != cycle[j]
    {
      var before := if i == 0 then |cycle| - 1 else i - 1;
      assert (cycle[before], cycle[i]) in graph;
    }
  }

  // ------------------------------------------------------------- walks

  ghost predicate IsWalk(graph: Graph, walk: seq<string>) {
    walk != [] && forall i :: 0 <= i < |walk| - 1 ==> (walk[i], walk[i + 1]) in graph
  }

  /** The walk goes from `k` to where the cycle starts. */
  ghost predicate Reaches(graph: Graph, k: string, walk: seq<string>, cycle: seq<string>) {
    IsWalk(graph, walk) && walk[0] == k && IsCycle(graph, cycle) && walk[|walk| - 1] == cycle[0]
  }

  ghost predicate LeadsToCycle(graph: Graph, k: string) {
    exists walk, cycle :: Reaches(graph, k, walk, cycle)
  }

  /** A node that leads to a cycle leads to one without chords. */
  lemma LeadsToChordless(graph: Graph, k: string) returns (walk: seq<string>, short: seq<string>)
    requires LeadsToCycle(graph, k)
    ensures Reaches(graph, k, walk, short) && Chordless(graph, short)
  {
    var first, cycle :| Reaches(graph, k, first, cycle);
    short := ChordlessCycle(graph, cycle);
    assert short[0] in short;
    var i :| 0 <= i < |cycle| && cycle[i] == short[0];
    walk := first + cycle[1..i + 1];
  }

  ghost predicate Distinct(nodes: seq<string>) {
    forall i, j :: 0 <= i < j < |nodes| ==> nodes[i] != nodes[j]
  }

  ghost predicate PointsInto(graph: Graph, n: string, nodes: seq<string>) {
    exists m :: m in nodes && (n, m) in graph
  }

  /** A cycle, and then nodes each of which has an edge to an earlier one. */
  ghost predicate Drawn(graph: Graph, cycle: seq<string>, nodes: seq<string>) {
    && cycle <= nodes && Distinct(nodes)
    && forall p :: |cycle| <= p < |nodes| ==> PointsInto(graph, nodes[p], nodes[..p])
  }

  lemma DrawOne(graph: Graph, cycle: seq<string>, nodes: seq<string>, n: string)
    requires Drawn(graph, cycle, nodes) && n !in nodes && PointsInto(graph, n, nodes)
    ensures Drawn(graph, cycle, nodes + [n])
  {
    var longer := nodes + [n];
    forall p | |cycle| <= p < |longer|
      ensures PointsInto(graph, longer[p], longer[..p])
    {
      assert longer[..p] == nodes[..p];
      assert nodes[..|nodes|] == nodes;
    }
  }

  /** The nodes of a walk, from its end on the cycle back to its start. */
  lemma {:induction false} DrawWalk(graph: Graph, cycle: seq<string>, walk: seq<string>) returns (nodes: seq<string>)
    requires IsWalk(graph, walk) && walk[|walk| - 1] in cycle && Distinct(cycle)
    ensures Drawn(graph, cycle, nodes) && walk[0] in nodes
  {
    if |walk| == 1 {
      nodes := cycle;
    } else {
      nodes := DrawWalk(graph, cycle, walk[1..]);
      assert (walk[0], walk[1]) in graph && walk[1] in nodes;
      if walk[0] !in nodes {
        DrawOne(graph, cycle, nodes, walk[0]);
        nodes := nodes + [walk[0]];
      }
    }
  }
}
