/** depthFirstAllWordsSearch and dfawsHelper: collect, below a node, the word
    ends of more than three letters, without descending below one. */
module Search {
  import opened Trie

  /** The nodes the search keeps: ends of words longer than three letters. */
  predicate Qualifies(nodes: seq<Node>, j: nat)
    requires j < |nodes|
  {
    nodes[j].isWord && nodes[j].value > 3
  }

  /** What the search from node `i` yields, in the order the source appends
      it: the node itself when it qualifies, else what its children yield. */
  function Collect(nodes: seq<Node>, i: nat): (r: seq<nat>)
    requires Valid(nodes) && i < |nodes|
    ensures forall t :: 0 <= t < |r| ==> i <= r[t] < |nodes| && Qualifies(nodes, r[t])
    decreases |nodes| - i, 1, 0
  {
    if Qualifies(nodes, i) then [i] else CollectChildren(nodes, i, |nodes[i].children|)
  }

  /** What the first `k` children of node `i` yield, one after the other. */
  function CollectChildren(nodes: seq<Node>, i: nat, k: nat): (r: seq<nat>)
    requires Valid(nodes) && i < |nodes| && k <= |nodes[i].children|
    ensures forall t :: 0 <= t < |r| ==> i < r[t] < |nodes| && Qualifies(nodes, r[t])
    decreases |nodes| - i, 0, k
  {
    if k == 0 then []
    else
      var c := nodes[i].children[k - 1];
      ChildFacts(nodes, i, c);
      CollectChildren(nodes, i, k - 1) + Collect(nodes, c)
  }

  /** dfawsHelper: append to `foundWords` what the search from node `i` yields. */
  method DfawsHelper(nodes: seq<Node>, i: nat, foundWords: seq<nat>) returns (found: seq<nat>)
    requires Valid(nodes) && i < |nodes|
    ensures found == foundWords + Collect(nodes, i)
    decreases |nodes| - i
  {
    found := foundWords;
    if Qualifies(nodes, i) {
      found := found + [i];
    } else {
      var children := nodes[i].children;
      for k := 0 to |children|
        invariant found == foundWords + CollectChildren(nodes, i, k)
      {
        var c := children[k];
        ChildFacts(nodes, i, c);
        assert CollectChildren(nodes, i, k + 1) == CollectChildren(nodes, i, k) + Collect(nodes, c);
        found := DfawsHelper(nodes, c, found);
      }
    }
  }

  /** depthFirstAllWordsSearch: the collected word ends, or None (the
      source's False) when there are none. */
  method DepthFirstAllWordsSearch(nodes: seq<Node>, i: nat) returns (r: Option<seq<nat>>)
    requires Valid(nodes) && i < |nodes|
    ensures r.None? <==> Collect(nodes, i) == []
    ensures r.Some? ==> r.value == Collect(nodes, i)
  {
    var foundWords := [];
    if Qualifies(nodes, i) {
      foundWords := foundWords + [i];
    } else {
      var children := nodes[i].children;
      for k := 0 to |children|
        invariant foundWords == CollectChildren(nodes, i, k)
      {
        var c := children[k];
        ChildFacts(nodes, i, c);
        assert CollectChildren(nodes, i, k + 1) == CollectChildren(nodes, i, k) + Collect(nodes, c);
        foundWords := DfawsHelper(nodes, c, foundWords);
      }
    }
    if foundWords != [] {
      r := Some(foundWords);
    } else {
      r := None;
    }
  }

  /** A path on which no node before the last one qualifies: the search
      walks down it without stopping. */
  ghost predicate Unblocked(nodes: seq<Node>, p: seq<nat>)
    requires IsPath(nodes, p)
  {
    forall t :: 0 <= t < |p| - 1 ==> !Qualifies(nodes, p[t])
  }

  ghost predicate ReachesUnblocked(nodes: seq<Node>, i: nat, j: nat) {
    exists p :: IsPath(nodes, p) && p[0] == i && p[|p| - 1] == j && Unblocked(nodes, p)
  }

  lemma {:induction false} InCollectChildren(nodes: seq<Node>, i: nat, k: nat, j: nat)
    requires Valid(nodes) && i < |nodes| && k <= |nodes[i].children|
    requires j in CollectChildren(nodes, i, k)
    ensures exists m :: 0 <= m < k && nodes[i].children[m] < |nodes| && j in Collect(nodes, nodes[i].children[m])
  {
    ChildFacts(nodes, i, nodes[i].children[k - 1]);
    if j !in Collect(nodes, nodes[i].children[k - 1]) {
      InCollectChildren(nodes, i, k - 1, j);
    }
  }

  lemma {:induction false} CollectChildrenHas(nodes: seq<Node>, i: nat, k: nat, m: nat, j: nat)
    requires Valid(nodes) && i < |nodes| && m < k <= |nodes[i].children|
    requires nodes[i].children[m] < |nodes| && j in Collect(nodes, nodes[i].children[m])
    ensures j in CollectChildren(nodes, i, k)
  {
    if m < k - 1 {
      CollectChildrenHas(nodes, i, k - 1, m, j);
    }
  }

  /** Soundness: every node the search yields qualifies and is reached from
      the start node along a path that no earlier qualifying node blocks. */
  lemma {:induction false} CollectSound(nodes: seq<Node>, i: nat, j: nat)
    requires Valid(nodes) && i < |nodes| && j in Collect(nodes, i)
    ensures j < |nodes| && Qualifies(nodes, j)
    ensures ReachesUnblocked(nodes, i, j)
    decreases |nodes| - i
  {
    if Qualifies(nodes, i) {
      ReachesSelf(nodes, i);
    } else {
      InCollectChildren(nodes, i, |nodes[i].children|, j);
      var m :| 0 <= m < |nodes[i].children| && nodes[i].children[m] < |nodes|
               && j in Collect(nodes, nodes[i].children[m]);
      var c := nodes[i].children[m];
      ChildFacts(nodes, i, c);
      CollectSound(nodes, c, j);
      var q :| IsPath(nodes, q) && q[0] == c && q[|q| - 1] == j && Unblocked(nodes, q);
      PathCons(nodes, i, q);
    }
  }

  lemma ReachesSelf(nodes: seq<Node>, i: nat)
    requires i < |nodes|
    ensures ReachesUnblocked(nodes, i, i)
  {
    var p := [i];
    assert IsPath(nodes, p) && p[0] == i && p[|p| - 1] == i && Unblocked(nodes, p);
  }

  /** A node that does not qualify, put in front of an unblocked path from
      one of its children, reaches the end of that path unblocked. */
  lemma PathCons(nodes: seq<Node>, i: nat, q: seq<nat>)
    requires i < |nodes| && !Qualifies(nodes, i)
    requires IsPath(nodes, q) && q[0] in nodes[i].children && Unblocked(nodes, q)
    ensures ReachesUnblocked(nodes, i, q[|q| - 1])
  {
    var p := [i] + q;
    assert forall t :: 0 < t < |p| ==> p[t] == q[t - 1];
    assert IsPath(nodes, p) && p[0] == i && p[|p| - 1] == q[|q| - 1] && Unblocked(nodes, p);
  }

  /** Completeness: a qualifying node that an unblocked path reaches from the
      start node is yielded by the search. */
  lemma {:induction false} CollectComplete(nodes: seq<Node>, p: seq<nat>)
    requires Valid(nodes) && IsPath(nodes, p) && Unblocked(nodes, p)
    requires Qualifies(nodes, p[|p| - 1])
    ensures p[|p| - 1] in Collect(nodes, p[0])
    decreases |p|
  {
    if |p| > 1 {
      var c := p[1];
      var m :| 0 <= m < |nodes[p[0]].children| && nodes[p[0]].children[m] == c;
      var q := p[1..];
      assert IsPath(nodes, q) && Unblocked(nodes, q);
      CollectComplete(nodes, q);
      CollectChildrenHas(nodes, p[0], |nodes[p[0]].children|, m, p[|p| - 1]);
    }
  }

  /** The search never descends below a node it yields: no yielded node is
      a proper descendant of another. */
  lemma CollectAntichain(nodes: seq<Node>, i: nat, q: seq<nat>)
    requires Valid(nodes) && i < |nodes| && IsPath(nodes, q)
    requires q[0] in Collect(nodes, i) && q[|q| - 1] in Collect(nodes, i)
    ensures |q| == 1
  {
    if |q| > 1 {
      var a, b := q[0], q[|q| - 1];
      CollectSound(nodes, i, b);
      var pb :| IsPath(nodes, pb) && pb[0] == i && pb[|pb| - 1] == b && Unblocked(nodes, pb);
      if |q| <= |pb| {
        PathSuffix(nodes, pb, q);
      } else {
        PathSuffix(nodes, q, pb);
        assert q[|q| - |pb|] == i;
        PathIncreases(nodes, q, 0, |q| - |pb|);
      }
      assert false;
    }
  }
}
