/** The letter trie of the Ghost player (class BTree), kept as an arena of nodes.
    Node 0 is the root; every node lists its children by index, in the order
    they were added, so the "first child with a letter" of the source is the
    first matching index of that list. */
module Trie {

  datatype Option<T> = None | Some(value: T)

  /** One BTree node: `name` is its letter (the root is called "root"),
      `value` its depth, `isWord` whether a dictionary word ends here. */
  datatype Node = Node(name: string, value: int, isWord: bool, children: seq<nat>)

  const RootName: string := "root"

  /** Taking one more element of a sequence appends that element. */
  lemma PrefixSnoc<T>(s: seq<T>, i: nat)
    requires i < |s|
    ensures s[..i + 1] == s[..i] + [s[i]] && s[..i + 1][..i] == s[..i]
  {
  }

  /** A prefix is the first elements of the longer sequence. */
  lemma PrefixTake<T>(v: seq<T>, w: seq<T>)
    requires v <= w
    ensures |v| <= |w| && w[..|v|] == v
  {
  }

  /** A proper prefix extends by the next element of the longer sequence. */
  lemma PrefixStep<T>(v: seq<T>, w: seq<T>)
    requires v <= w && v != w
    ensures |v| < |w| && w[..|v| + 1] <= w && w[..|v| + 1][..|v|] == v
  {
  }

  /** The shape every trie built from a word list has: a strict tree hanging
      from node 0 whose levels count letters. */
  ghost predicate Valid(nodes: seq<Node>) {
    && |nodes| > 0
    && nodes[0].value == 0
    // a child is a later node, one level deeper, named by a single letter
    && (forall i, a :: 0 <= i < |nodes| && 0 <= a < |nodes[i].children| ==>
          && i < nodes[i].children[a] < |nodes|
          && nodes[nodes[i].children[a]].value == nodes[i].value + 1
          && |nodes[nodes[i].children[a]].name| == 1)
    // no two siblings share a letter
    && (forall i, a, b :: 0 <= i < |nodes| && 0 <= a < b < |nodes[i].children| ==>
          nodes[nodes[i].children[a]].name != nodes[nodes[i].children[b]].name)
    // a node hangs under one parent only, and only once
    && (forall i, j, a, b ::
          && 0 <= i < |nodes| && 0 <= j < |nodes|
          && 0 <= a < |nodes[i].children| && 0 <= b < |nodes[j].children|
          && nodes[i].children[a] == nodes[j].children[b]
          ==> i == j && a == b)
  }

  lemma ChildFacts(nodes: seq<Node>, i: nat, c: nat)
    requires Valid(nodes) && i < |nodes| && c in nodes[i].children
    ensures i < c < |nodes| && nodes[c].value == nodes[i].value + 1 && |nodes[c].name| == 1
  {
    var a :| 0 <= a < |nodes[i].children| && nodes[i].children[a] == c;
  }

  /** Two children of one node with the same letter are the same child. */
  lemma SiblingsUnique(nodes: seq<Node>, i: nat)
    requires Valid(nodes) && i < |nodes|
    ensures forall x, y ::
              (x in nodes[i].children && y in nodes[i].children && x < |nodes| && y < |nodes| &&
               nodes[x].name == nodes[y].name) ==> x == y
  {
    forall x, y | x in nodes[i].children && y in nodes[i].children && x < |nodes| && y < |nodes|
                  && nodes[x].name == nodes[y].name
      ensures x == y
    {
      var a :| 0 <= a < |nodes[i].children| && nodes[i].children[a] == x;
      var b :| 0 <= b < |nodes[i].children| && nodes[i].children[b] == y;
      if a < b || b < a {
        assert false;
      }
    }
  }

  /** A node that is a child of two nodes has one parent. */
  lemma ParentUnique(nodes: seq<Node>, p: nat, q: nat, c: nat)
    requires Valid(nodes) && p < |nodes| && q < |nodes|
    requires c in nodes[p].children && c in nodes[q].children
    ensures p == q
  {
    var a :| 0 <= a < |nodes[p].children| && nodes[p].children[a] == c;
    var b :| 0 <= b < |nodes[q].children| && nodes[q].children[b] == c;
  }

  /** The scan of BTree.findSubTree over a list of children: the first one named `name`. */
  function FindIn(nodes: seq<Node>, cs: seq<nat>, name: string): (r: Option<nat>)
    requires forall k :: 0 <= k < |cs| ==> cs[k] < |nodes|
    ensures r.Some? ==> r.value in cs && nodes[r.value].name == name
    ensures r.None? ==> forall k :: 0 <= k < |cs| ==> nodes[cs[k]].name != name
  {
    if cs == [] then None
    else if nodes[cs[0]].name == name then Some(cs[0])
    else FindIn(nodes, cs[1..], name)
  }

  /** The scan stops at the first listed child carrying the name. */
  lemma {:induction false} FindInFirst(nodes: seq<Node>, cs: seq<nat>, name: string)
    requires forall k :: 0 <= k < |cs| ==> cs[k] < |nodes|
    ensures FindIn(nodes, cs, name).Some? ==>
              exists k :: 0 <= k < |cs| && cs[k] == FindIn(nodes, cs, name).value
                          && forall k' :: 0 <= k' < k ==> nodes[cs[k']].name != name
  {
    if cs != [] && nodes[cs[0]].name != name && FindIn(nodes, cs[1..], name).Some? {
      FindInFirst(nodes, cs[1..], name);
      var k :| 0 <= k < |cs[1..]| && cs[1..][k] == FindIn(nodes, cs[1..], name).value
               && forall k' :: 0 <= k' < k ==> nodes[cs[1..][k']].name != name;
      assert cs[k + 1] == FindIn(nodes, cs, name).value;
      assert forall k' :: 0 <= k' < k + 1 ==> nodes[cs[k']].name != name by {
        forall k' | 0 <= k' < k + 1
          ensures nodes[cs[k']].name != name
        {
          if k' > 0 {
            assert cs[k'] == cs[1..][k' - 1];
          }
        }
      }
    } else if cs != [] && nodes[cs[0]].name == name {
      assert cs[0] == FindIn(nodes, cs, name).value;
    }
  }

  /** BTree.findSubTree: the child of node `i` named `name`, or None (the source's False). */
  function FindSubTree(nodes: seq<Node>, i: nat, name: string): (r: Option<nat>)
    requires Valid(nodes) && i < |nodes|
    ensures r.Some? ==> r.value in nodes[i].children && nodes[r.value].name == name
    ensures forall c :: c in nodes[i].children && nodes[c].name == name ==> r == Some(c)
  {
    assert forall k :: 0 <= k < |nodes[i].children| ==> nodes[i].children[k] < |nodes|;
    SiblingsUnique(nodes, i);
    FindIn(nodes, nodes[i].children, name)
  }

  /** The node reached from the root by looking up the letters of `w` one
      after the other with FindSubTree, or None when some letter is missing. */
  function Trace(nodes: seq<Node>, w: string): (r: Option<nat>)
    requires Valid(nodes)
    ensures r.Some? ==> r.value < |nodes| && nodes[r.value].value == |w|
    decreases |w|
  {
    if w == [] then Some(0)
    else match Trace(nodes, w[..|w| - 1])
      case None => None
      case Some(p) =>
        var r := FindSubTree(nodes, p, [w[|w| - 1]]);
        if r.Some? then ChildFacts(nodes, p, r.value); r else r
  }

  /** `w` is a word of the trie: its letters lead to a node marked as a word end. */
  ghost predicate IsWordIn(nodes: seq<Node>, w: string)
    requires Valid(nodes)
  {
    Trace(nodes, w).Some? && nodes[Trace(nodes, w).value].isWord
  }

  /** The node a non-empty string leads to is a child, named by the string's
      last letter, of the node its prefix leads to. */
  lemma TraceLast(nodes: seq<Node>, w: string)
    requires Valid(nodes) && |w| > 0 && Trace(nodes, w).Some?
    ensures Trace(nodes, w[..|w| - 1]).Some?
    ensures Trace(nodes, w).value in nodes[Trace(nodes, w[..|w| - 1]).value].children
    ensures nodes[Trace(nodes, w).value].name == [w[|w| - 1]]
  {
  }

  lemma SnocInjective(v: string, w: string)
    requires |v| == |w| > 0 && v[..|v| - 1] == w[..|w| - 1] && [v[|v| - 1]] == [w[|w| - 1]]
    ensures v == w
  {
    assert v == v[..|v| - 1] + [v[|v| - 1]];
    assert w == w[..|w| - 1] + [w[|w| - 1]];
  }

  /** Different strings lead to different nodes: the trie spells each node's string once. */
  lemma {:induction false} TraceInjective(nodes: seq<Node>, v: string, w: string)
    requires Valid(nodes)
    requires Trace(nodes, v).Some? && Trace(nodes, v) == Trace(nodes, w)
    ensures v == w
    decreases |v|
  {
    if |v| > 0 {
      assert |w| == |v|;
      var v', w' := v[..|v| - 1], w[..|w| - 1];
      TraceLast(nodes, v);
      TraceLast(nodes, w);
      var j := Trace(nodes, v).value;
      ParentUnique(nodes, Trace(nodes, v').value, Trace(nodes, w').value, j);
      TraceInjective(nodes, v', w');
      assert [v[|v| - 1]] == nodes[j].name == [w[|w| - 1]];
      SnocInjective(v, w);
    }
  }

  /** Spelling one more letter from a reachable node looks that letter up
      among the node's children. */
  lemma TraceSnoc(nodes: seq<Node>, w: string, name: string)
    requires Valid(nodes) && |name| == 1 && Trace(nodes, w).Some?
    ensures Trace(nodes, w + name) == FindSubTree(nodes, Trace(nodes, w).value, name)
  {
    var v := w + name;
    assert v[..|v| - 1] == w;
    assert [v[|v| - 1]] == name;
  }

  /** Every prefix of a string the trie can spell can be spelled too. */
  lemma {:induction false} TracePrefix(nodes: seq<Node>, w: string, k: nat)
    requires Valid(nodes) && k <= |w| && Trace(nodes, w).Some?
    ensures Trace(nodes, w[..k]).Some?
    decreases |w|
  {
    if k < |w| {
      assert w[..|w| - 1][..k] == w[..k];
      TracePrefix(nodes, w[..|w| - 1], k);
    } else {
      assert w[..k] == w;
    }
  }

  /** A sequence of nodes each of which is a child of the one before. */
  ghost predicate IsPath(nodes: seq<Node>, p: seq<nat>) {
    && |p| > 0
    && (forall t :: 0 <= t < |p| ==> p[t] < |nodes|)
    && (forall t :: 0 <= t < |p| - 1 ==> p[t + 1] in nodes[p[t]].children)
  }

  /** Along a path the arena indices grow, so a path never returns to a node. */
  lemma {:induction false} PathIncreases(nodes: seq<Node>, p: seq<nat>, s: nat, t: nat)
    requires Valid(nodes) && IsPath(nodes, p) && s < t < |p|
    ensures p[s] < p[t]
    decreases t - s
  {
    ChildFacts(nodes, p[t - 1], p[t]);
    if s < t - 1 {
      PathIncreases(nodes, p, s, t - 1);
    }
  }

  /** Each step of a path goes one level down. */
  lemma {:induction false} PathDepth(nodes: seq<Node>, p: seq<nat>)
    requires Valid(nodes) && IsPath(nodes, p)
    ensures nodes[p[|p| - 1]].value == nodes[p[0]].value + |p| - 1
    decreases |p|
  {
    if |p| > 1 {
      ChildFacts(nodes, p[|p| - 2], p[|p| - 1]);
      assert IsPath(nodes, p[..|p| - 1]);
      PathDepth(nodes, p[..|p| - 1]);
    }
  }

  /** The last `n` elements of a sequence are the last `n - 1` elements of
      all but its last, followed by its last. */
  lemma SuffixSnoc<T>(s: seq<T>, n: nat)
    requires 0 < n <= |s|
    ensures s[|s| - n..] == s[..|s| - 1][|s| - n..] + [s[|s| - 1]]
  {
  }

  /** In a strict tree, of two paths ending at one node the shorter is the tail of the longer. */
  lemma {:induction false} PathSuffix(nodes: seq<Node>, x: seq<nat>, y: seq<nat>)
    requires Valid(nodes) && IsPath(nodes, x) && IsPath(nodes, y)
    requires x[|x| - 1] == y[|y| - 1] && |y| <= |x|
    ensures y == x[|x| - |y|..]
    decreases |y|
  {
    if |y| > 1 {
      var x', y' := x[..|x| - 1], y[..|y| - 1];
      ParentUnique(nodes, x[|x| - 2], y[|y| - 2], y[|y| - 1]);
      assert IsPath(nodes, x') && IsPath(nodes, y');
      PathSuffix(nodes, x', y');
      SuffixSnoc(y, |y|);
      SuffixSnoc(x, |y|);
    }
  }
}
