/** buildABTree: the trie is grown one word at a time by walking a
    current-node pointer from the root, reusing the child with the next letter
    or appending a new one, and marking the last node as a word end. */
module Build {
  import opened Trie

  /** `b` has the shape of `a` after some insertions: nodes were only
      appended, and existing nodes kept their letter and depth and gained
      children only at the end of their lists (and only new nodes). */
  ghost predicate Grows(a: seq<Node>, b: seq<Node>) {
    && |a| <= |b|
    && forall i :: 0 <= i < |a| ==>
         && b[i].name == a[i].name && b[i].value == a[i].value
         && a[i].children <= b[i].children
         && forall k :: |a[i].children| <= k < |b[i].children| ==> b[i].children[k] >= |a|
  }

  lemma GrowsTransitive(a: seq<Node>, b: seq<Node>, c: seq<Node>)
    requires Grows(a, b) && Grows(b, c)
    ensures Grows(a, c)
  {
    forall i | 0 <= i < |a|
      ensures forall k :: |a[i].children| <= k < |c[i].children| ==> c[i].children[k] >= |a|
    {
      forall k | |a[i].children| <= k < |c[i].children|
        ensures c[i].children[k] >= |a|
      {
        if k < |b[i].children| {
          assert c[i].children[k] == b[i].children[k];
        }
      }
    }
  }

  /** Growing the trie keeps every string it could spell, leading to the same
      node; and a string that now leads to an old node led there before. */
  lemma {:induction false} TraceGrows(a: seq<Node>, b: seq<Node>, w: string)
    requires Valid(a) && Valid(b) && Grows(a, b)
    ensures Trace(a, w).Some? ==> Trace(b, w) == Trace(a, w)
    ensures Trace(b, w).Some? && Trace(b, w).value < |a| ==> Trace(a, w) == Trace(b, w)
    decreases |w|
  {
    if w != [] {
      var w' := w[..|w| - 1];
      var name := [w[|w| - 1]];
      TraceGrows(a, b, w');
      if Trace(a, w').Some? {
        var p := Trace(a, w').value;
        var fa := FindSubTree(a, p, name);
        if fa.Some? {
          assert fa.value in b[p].children;
        }
      }
      if Trace(b, w).Some? && Trace(b, w).value < |a| {
        var j := Trace(b, w).value;
        var p := Trace(b, w').value;
        ChildFacts(b, p, j);
        var k :| 0 <= k < |b[p].children| && b[p].children[k] == j;
        assert k < |a[p].children|;
        assert j in a[p].children;
      }
    }
  }

  /** BTree.addChild of a new BTree(letter, depth): the node is appended to
      the arena and its index to the end of the parent's children. */
  function AddChild(nodes: seq<Node>, parent: nat, child: Node): seq<Node>
    requires parent < |nodes|
  {
    nodes[parent := nodes[parent].(children := nodes[parent].children + [|nodes|])] + [child]
  }

  /** Adding a child whose letter is new among its siblings, one level below
      its parent, keeps the trie a strict tree and only grows it. */
  lemma AddChildKeepsValid(nodes: seq<Node>, parent: nat, child: Node)
    requires Valid(nodes) && parent < |nodes|
    requires |child.name| == 1 && child.value == nodes[parent].value + 1 && child.children == []
    requires FindSubTree(nodes, parent, child.name).None?
    ensures Valid(AddChild(nodes, parent, child))
  {
    AddChildEdges(nodes, parent, child);
    AddChildSiblings(nodes, parent, child);
    AddChildParents(nodes, parent, child);
  }

  /** After AddChild, every edge still goes to a later node, one level down,
      named by one letter. */
  lemma AddChildEdges(nodes: seq<Node>, parent: nat, child: Node)
    requires Valid(nodes) && parent < |nodes|
    requires |child.name| == 1 && child.value == nodes[parent].value + 1 && child.children == []
    ensures var r := AddChild(nodes, parent, child);
      forall i, a :: 0 <= i < |r| && 0 <= a < |r[i].children| ==>
        && i < r[i].children[a] < |r|
        && r[r[i].children[a]].value == r[i].value + 1
        && |r[r[i].children[a]].name| == 1
  {
    var n, m := |nodes|, nodes[parent].children;
    var r := AddChild(nodes, parent, child);
    forall i, a | 0 <= i < |r| && 0 <= a < |r[i].children|
      ensures && i < r[i].children[a] < |r|
              && r[r[i].children[a]].value == r[i].value + 1
              && |r[r[i].children[a]].name| == 1
    {
      assert i < n;
      if !(i == parent && a == |m|) {
        assert r[i].children[a] == nodes[i].children[a];
      }
    }
  }

  /** After AddChild, siblings still have distinct letters. */
  lemma AddChildSiblings(nodes: seq<Node>, parent: nat, child: Node)
    requires Valid(nodes) && parent < |nodes| && child.children == []
    requires FindSubTree(nodes, parent, child.name).None?
    ensures var r := AddChild(nodes, parent, child);
      forall i, a, b :: 0 <= i < |r| && 0 <= a < b < |r[i].children| ==>
        r[r[i].children[a]].name != r[r[i].children[b]].name
  {
    var n, m := |nodes|, nodes[parent].children;
    var r := AddChild(nodes, parent, child);
    forall i, a, b | 0 <= i < |r| && 0 <= a < b < |r[i].children|
      ensures r[r[i].children[a]].name != r[r[i].children[b]].name
    {
      assert i < n;
      if i == parent && b == |m| {
        assert m[a] in m;
      } else {
        assert r[i].children[a] == nodes[i].children[a];
        assert r[i].children[b] == nodes[i].children[b];
      }
    }
  }

  /** After AddChild, every node still hangs under one parent, once. */
  lemma AddChildParents(nodes: seq<Node>, parent: nat, child: Node)
    requires Valid(nodes) && parent < |nodes| && child.children == []
    ensures var r := AddChild(nodes, parent, child);
      forall i, j, a, b ::
        && 0 <= i < |r| && 0 <= j < |r|
        && 0 <= a < |r[i].children| && 0 <= b < |r[j].children|
        && r[i].children[a] == r[j].children[b]
        ==> i == j && a == b
  {
    var n, m := |nodes|, nodes[parent].children;
    var r := AddChild(nodes, parent, child);
    forall i, j, a, b |
      && 0 <= i < |r| && 0 <= j < |r|
      && 0 <= a < |r[i].children| && 0 <= b < |r[j].children|
      && r[i].children[a] == r[j].children[b]
      ensures i == j && a == b
    {
      assert i < n && j < n;
      var newI, newJ := i == parent && a == |m|, j == parent && b == |m|;
      if !newI {
        assert r[i].children[a] == nodes[i].children[a] < n;
      }
      if !newJ {
        assert r[j].children[b] == nodes[j].children[b] < n;
      }
    }
  }

  /** The loop of buildABTree over the letters of one word (its lines for a
      single `word`): walk from the root, reuse or create each letter's node,
      then mark the last node as the end of a word. */
  method InsertWord(nodes: seq<Node>, word: string) returns (nodes': seq<Node>)
    requires Valid(nodes)
    ensures Valid(nodes') && Grows(nodes, nodes')
    ensures IsWordIn(nodes', word)
    ensures forall v :: IsWordIn(nodes', v) <==> IsWordIn(nodes, v) || v == word
    ensures forall v :: Trace(nodes', v).Some? <==> Trace(nodes, v).Some? || v <= word
    ensures Trace(nodes, word).Some? ==>
              nodes' == nodes[Trace(nodes, word).value := nodes[Trace(nodes, word).value].(isWord := true)]
  {
    nodes' := nodes;
    var currentNode: nat := 0;
    assert word[..0] == [];
    for i := 0 to |word|
      invariant Walked(nodes, nodes', word, i, currentNode)
      invariant Trace(nodes, word).Some? ==> nodes' == nodes
    {
      var foundNode := FindSubTree(nodes', currentNode, [word[i]]);
      if foundNode.Some? {
        // there is an existing node: reuse it
        ReuseStep(nodes, nodes', word, i, currentNode);
        currentNode := foundNode.value;
      } else {
        if Trace(nodes, word).Some? {
          PrefixSnoc(word, i);
          TraceSnoc(nodes', word[..i], [word[i]]);
          TracePrefix(nodes, word, i + 1);
          assert false;
        }
        // create a new node, one letter deeper, and make it the current node
        var newNode := Node([word[i]], i + 1, false, []);
        NewLetterStep(nodes, nodes', word, i, currentNode);
        nodes', currentNode := AddChild(nodes', currentNode, newNode), |nodes'|;
      }
    }
    assert word[..|word|] == word;
    FinishInsert(nodes, nodes', word, currentNode);
    // mark the current character as the end of a word
    nodes' := nodes'[currentNode := nodes'[currentNode].(isWord := true)];
  }

  /** The state of the letter walk of InsertWord after `i` letters: the trie
      has only grown, its first `i` letters lead to `cur`, no new node is a
      word end, and every new node is where a prefix of the word leads. */
  ghost predicate Walked(nodes: seq<Node>, walked: seq<Node>, word: string, i: nat, cur: nat) {
    && i <= |word| && Valid(nodes) && Valid(walked) && Grows(nodes, walked)
    && Trace(walked, word[..i]) == Some(cur)
    && (forall x :: 0 <= x < |walked| ==> walked[x].isWord == (x < |nodes| && nodes[x].isWord))
    && NewNodesSpellWord(nodes, walked, word, i)
  }

  /** The step of the walk that reuses the child with the next letter. */
  lemma ReuseStep(nodes: seq<Node>, walked: seq<Node>, word: string, i: nat, cur: nat)
    requires Walked(nodes, walked, word, i, cur) && i < |word|
    requires FindSubTree(walked, cur, [word[i]]).Some?
    ensures Walked(nodes, walked, word, i + 1, FindSubTree(walked, cur, [word[i]]).value)
  {
    PrefixSnoc(word, i);
    TraceSnoc(walked, word[..i], [word[i]]);
    NewNodesWiden(nodes, walked, word, i);
  }

  /** Marking the node the whole word leads to completes the insertion. */
  lemma FinishInsert(nodes: seq<Node>, walked: seq<Node>, word: string, j: nat)
    requires Walked(nodes, walked, word, |word|, j)
    ensures var marked := walked[j := walked[j].(isWord := true)];
      && Valid(marked) && Grows(nodes, marked)
      && IsWordIn(marked, word)
      && (forall v :: IsWordIn(marked, v) <==> IsWordIn(nodes, v) || v == word)
      && (forall v :: Trace(marked, v).Some? <==> Trace(nodes, v).Some? || v <= word)
  {
    assert word[..|word|] == word;
    var marked := walked[j := walked[j].(isWord := true)];
    MarkKeepsShape(walked, j);
    GrowsTransitive(nodes, walked, marked);
    InsertedWords(nodes, walked, marked, word, j);
    InsertedPrefixes(nodes, walked, marked, word);
  }

  /** A bound on the depth of the new nodes can be loosened. */
  lemma NewNodesWiden(nodes: seq<Node>, walked: seq<Node>, word: string, i: nat)
    requires Valid(walked) && NewNodesSpellWord(nodes, walked, word, i)
    ensures NewNodesSpellWord(nodes, walked, word, i + 1)
  {
  }

  /** The nodes `walked` has beyond `nodes` are where prefixes of `word` of
      at most `i` letters lead: a node at depth d is reached by its first d letters. */
  ghost predicate NewNodesSpellWord(nodes: seq<Node>, walked: seq<Node>, word: string, i: nat)
    requires Valid(walked)
  {
    forall x :: |nodes| <= x < |walked| ==>
      0 <= walked[x].value <= i && walked[x].value <= |word| && Trace(walked, word[..walked[x].value]) == Some(x)
  }

  /** The nodes created so far for a word are where its prefixes lead: a
      node at depth d is reached by the word's first d letters. */
  lemma NewNodesStep(nodes: seq<Node>, walked: seq<Node>, grown: seq<Node>, word: string, i: nat, cur: nat)
    requires Valid(walked) && Valid(grown) && |nodes| <= |walked| && cur < |walked| && i < |word|
    requires grown == AddChild(walked, cur, Node([word[i]], i + 1, false, []))
    requires Trace(grown, word[..i + 1]) == Some(|walked|)
    requires NewNodesSpellWord(nodes, walked, word, i)
    ensures NewNodesSpellWord(nodes, grown, word, i + 1)
  {
    AddChildGrows(walked, cur, Node([word[i]], i + 1, false, []));
    assert |grown| == |walked| + 1 && grown[|walked|].value == i + 1;
    forall x | |nodes| <= x < |grown|
      ensures 0 <= grown[x].value <= i + 1 && grown[x].value <= |word|
              && Trace(grown, word[..grown[x].value]) == Some(x)
    {
      NewNodeSpells(nodes, walked, grown, word, i, x);
    }
  }

  /** One node of NewNodesStep. */
  lemma NewNodeSpells(nodes: seq<Node>, walked: seq<Node>, grown: seq<Node>, word: string, i: nat, x: nat)
    requires Valid(walked) && Valid(grown) && Grows(walked, grown) && i < |word|
    requires |grown| == |walked| + 1 && grown[|walked|].value == i + 1
    requires Trace(grown, word[..i + 1]) == Some(|walked|)
    requires NewNodesSpellWord(nodes, walked, word, i)
    requires |nodes| <= x < |grown|
    ensures 0 <= grown[x].value <= i + 1 && grown[x].value <= |word|
            && Trace(grown, word[..grown[x].value]) == Some(x)
  {
    if x < |walked| {
      var d := walked[x].value;
      assert 0 <= d <= i && Trace(walked, word[..d]) == Some(x);
      TraceKept(walked, grown, word[..d], x);
    } else {
      assert x == |walked|;
    }
  }

  /** A node an old string leads to keeps its depth and is still reached by it. */
  lemma TraceKept(a: seq<Node>, b: seq<Node>, w: string, x: nat)
    requires Valid(a) && Valid(b) && Grows(a, b) && Trace(a, w) == Some(x)
    ensures x < |a| && b[x].value == a[x].value && Trace(b, w) == Some(x)
  {
    TraceGrows(a, b, w);
  }

  /** The strings the trie spells after an insertion: those it spelled
      before and the prefixes of the inserted word. */
  lemma InsertedPrefixes(nodes: seq<Node>, walked: seq<Node>, marked: seq<Node>, word: string)
    requires Valid(nodes) && Valid(walked) && Valid(marked)
    requires Grows(nodes, walked) && Grows(walked, marked) && Grows(marked, walked)
    requires Trace(walked, word).Some?
    requires NewNodesSpellWord(nodes, walked, word, |word|)
    ensures forall v :: Trace(marked, v).Some? <==> Trace(nodes, v).Some? || v <= word
  {
    forall v
      ensures Trace(marked, v).Some? <==> Trace(nodes, v).Some? || v <= word
    {
      InsertedPrefix(nodes, walked, marked, word, v);
    }
  }

  /** One string of InsertedPrefixes. */
  lemma InsertedPrefix(nodes: seq<Node>, walked: seq<Node>, marked: seq<Node>, word: string, v: string)
    requires Valid(nodes) && Valid(walked) && Valid(marked)
    requires Grows(nodes, walked) && Grows(walked, marked) && Grows(marked, walked)
    requires Trace(walked, word).Some?
    requires NewNodesSpellWord(nodes, walked, word, |word|)
    ensures Trace(marked, v).Some? <==> Trace(nodes, v).Some? || v <= word
  {
    TraceGrows(walked, marked, v);
    TraceGrows(marked, walked, v);
    TraceGrows(nodes, walked, v);
    if Trace(walked, v).Some? && Trace(walked, v).value >= |nodes| {
      var x := Trace(walked, v).value;
      var k := walked[x].value;
      TraceInjective(walked, v, word[..k]);
    }
    if v <= word {
      PrefixTake(v, word);
      TracePrefix(walked, word, |v|);
    }
  }

  /** The step of the walk that creates a node for letter i of the word. */
  lemma NewLetterStep(nodes: seq<Node>, walked: seq<Node>, word: string, i: nat, cur: nat)
    requires Walked(nodes, walked, word, i, cur) && i < |word|
    requires FindSubTree(walked, cur, [word[i]]).None?
    ensures Walked(nodes, AddChild(walked, cur, Node([word[i]], i + 1, false, [])), word, i + 1, |walked|)
  {
    PrefixSnoc(word, i);
    TraceSnoc(walked, word[..i], [word[i]]);
    var newNode := Node([word[i]], i + 1, false, []);
    var grown := AddChild(walked, cur, newNode);
    AddChildKeepsValid(walked, cur, newNode);
    AddChildGrows(walked, cur, newNode);
    GrowsTransitive(nodes, walked, grown);
    AddChildWords(nodes, walked, cur, newNode);
    NewLetterTrace(walked, grown, word, i, cur);
    NewNodesStep(nodes, walked, grown, word, i, cur);
  }

  lemma AddChildGrows(nodes: seq<Node>, parent: nat, child: Node)
    requires parent < |nodes|
    ensures Grows(nodes, AddChild(nodes, parent, child))
  {
  }

  /** A new node that is not a word end leaves the set of word-end nodes as it was. */
  lemma AddChildWords(nodes: seq<Node>, walked: seq<Node>, parent: nat, child: Node)
    requires parent < |walked| && |nodes| <= |walked| && !child.isWord
    requires forall x :: 0 <= x < |walked| ==> walked[x].isWord == (x < |nodes| && nodes[x].isWord)
    ensures var grown := AddChild(walked, parent, child);
      forall x :: 0 <= x < |grown| ==> grown[x].isWord == (x < |nodes| && nodes[x].isWord)
  {
  }

  /** The new node is where the word's first i+1 letters now lead. */
  lemma NewLetterTrace(walked: seq<Node>, grown: seq<Node>, word: string, i: nat, cur: nat)
    requires Valid(walked) && Valid(grown) && Grows(walked, grown) && i < |word|
    requires Trace(walked, word[..i]) == Some(cur)
    requires grown == AddChild(walked, cur, Node([word[i]], i + 1, false, []))
    ensures Trace(grown, word[..i + 1]) == Some(|walked|)
  {
    var w := word[..i + 1];
    assert w[..|w| - 1] == word[..i] && w[|w| - 1] == word[i];
    TraceGrows(walked, grown, word[..i]);
    assert |walked| in grown[cur].children && grown[|walked|].name == [word[i]];
  }

  /** Setting a node's isWord flag changes no letter, depth or child. */
  lemma MarkKeepsShape(nodes: seq<Node>, j: nat)
    requires Valid(nodes) && j < |nodes|
    ensures Valid(nodes[j := nodes[j].(isWord := true)])
    ensures Grows(nodes, nodes[j := nodes[j].(isWord := true)])
    ensures Grows(nodes[j := nodes[j].(isWord := true)], nodes)
  {
    var r := nodes[j := nodes[j].(isWord := true)];
    assert forall x :: 0 <= x < |nodes| ==>
      r[x].children == nodes[x].children && r[x].name == nodes[x].name && r[x].value == nodes[x].value;
  }

  /** The word set after marking: the old words and the inserted one. */
  lemma InsertedWords(nodes: seq<Node>, walked: seq<Node>, marked: seq<Node>, word: string, j: nat)
    requires Valid(nodes) && Valid(walked) && Valid(marked)
    requires Grows(nodes, walked) && Grows(walked, marked) && Grows(marked, walked)
    requires Trace(walked, word) == Some(j)
    requires forall x :: 0 <= x < |walked| ==> walked[x].isWord == (x < |nodes| && nodes[x].isWord)
    requires marked == walked[j := walked[j].(isWord := true)]
    ensures IsWordIn(marked, word)
    ensures forall v :: IsWordIn(marked, v) <==> IsWordIn(nodes, v) || v == word
  {
    TraceGrows(walked, marked, word);
    forall v
      ensures IsWordIn(marked, v) <==> IsWordIn(nodes, v) || v == word
    {
      TraceGrows(walked, marked, v);
      TraceGrows(marked, walked, v);
      TraceGrows(nodes, walked, v);
      if IsWordIn(marked, v) && v != word {
        var x := Trace(marked, v).value;
        if x == j {
          TraceInjective(marked, v, word);
        }
      }
    }
  }

  /** buildABTree: None for an empty word list, otherwise the root of a trie
      whose words are exactly the listed ones. */
  method BuildABTree(words: seq<string>) returns (root: Option<seq<Node>>)
    ensures root.None? <==> words == []
    ensures root.Some? ==> Valid(root.value) && root.value[0].name == RootName
    ensures root.Some? ==> forall v :: IsWordIn(root.value, v) <==> v in words
    ensures root.Some? ==> forall v :: Trace(root.value, v).Some? <==> PrefixOfSome(v, words)
  {
    var nodes := [Node(RootName, 0, false, [])];
    if words == [] {
      return None;
    }
    for k := 0 to |words|
      invariant Valid(nodes) && nodes[0].name == RootName
      invariant forall v :: IsWordIn(nodes, v) <==> v in words[..k]
      invariant forall v :: Trace(nodes, v).Some? <==> v == [] || PrefixOfSome(v, words[..k])
    {
      PrefixSnoc(words, k);
      PrefixOfSomeSnoc(words[..k], words[k]);
      nodes := InsertWord(nodes, words[k]);
    }
    assert words[..|words|] == words;
    assert words[0] in words && [] <= words[0];
    assert PrefixOfSome([], words);
    return Some(nodes);
  }

  /** `v` begins some word of the list. */
  ghost predicate PrefixOfSome(v: string, words: seq<string>) {
    exists w :: w in words && v <= w
  }

  lemma PrefixOfSomeSnoc(words: seq<string>, word: string)
    ensures forall v :: PrefixOfSome(v, words + [word]) <==> PrefixOfSome(v, words) || v <= word
  {
    forall v
      ensures PrefixOfSome(v, words + [word]) <==> PrefixOfSome(v, words) || v <= word
    {
      if PrefixOfSome(v, words + [word]) && !(v <= word) {
        var w :| w in words + [word] && v <= w;
        assert w in words;
      }
      if PrefixOfSome(v, words) {
        var w :| w in words && v <= w;
        assert w in words + [word];
      }
      if v <= word {
        assert word in words + [word];
      }
    }
  }

  /** In a trie built from a word list, a node nothing follows ends a word:
      every spelled string is a prefix of a listed word, and a proper prefix
      has the next letter of that word below it. */
  lemma LeafIsWord(nodes: seq<Node>, words: seq<string>, v: string)
    requires Valid(nodes)
    requires forall u :: Trace(nodes, u).Some? <==> PrefixOfSome(u, words)
    requires forall u :: IsWordIn(nodes, u) <==> u in words
    requires Trace(nodes, v).Some? && nodes[Trace(nodes, v).value].children == []
    ensures IsWordIn(nodes, v)
  {
    assert PrefixOfSome(v, words);
    var w :| w in words && v <= w;
    if v != w {
      PrefixStep(v, w);
      var u := w[..|v| + 1];
      assert PrefixOfSome(u, words);
      TraceLast(nodes, u);
      assert false;
    } else {
      assert v in words;
    }
  }
}
