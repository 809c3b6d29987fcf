/** GhostGame: the state of one game of Ghost (the string spelled so far,
    the node of the trie it leads to, and the outcome) and the check made
    after every letter a player adds. */
module Game {
  import opened Trie
  import Build

  /** A node has children exactly when some single letter leads on from it. */
  lemma ExtendableIffChildren(nodes: seq<Node>, i: nat)
    requires Trie.Valid(nodes) && i < |nodes|
    ensures nodes[i].children != [] <==> exists ch: char :: FindSubTree(nodes, i, [ch]).Some?
  {
    if nodes[i].children != [] {
      var c := nodes[i].children[0];
      ChildFacts(nodes, i, c);
      var ch := nodes[c].name[0];
      assert [ch] == nodes[c].name;
      assert FindSubTree(nodes, i, [ch]) == Some(c);
    }
  }

  /** The rules of the game for the string spelled so far: the player who
      added the last letter loses when the trie cannot spell the string,
      when it completes a word of four or more letters, or when
      nothing can follow it. */
  ghost predicate Lost(nodes: seq<Node>, s: string)
    requires Trie.Valid(nodes)
  {
    || Trace(nodes, s).None?
    || (IsWordIn(nodes, s) && |s| > 3)
    || nodes[Trace(nodes, s).value].children == []
  }

  /** For a trie built from a word list (it spells exactly the prefixes of
      the words and its word ends are exactly the words), the loss rule reads
      in terms of the dictionary: the string begins no word, or is a word of
      four or more letters, or no word continues it by a letter. */
  lemma LostInDictionary(nodes: seq<Node>, words: seq<string>, s: string)
    requires Trie.Valid(nodes)
    requires forall u :: Trace(nodes, u).Some? <==> Build.PrefixOfSome(u, words)
    requires forall u :: IsWordIn(nodes, u) <==> u in words
    ensures Lost(nodes, s) <==>
              || !Build.PrefixOfSome(s, words)
              || (s in words && |s| > 3)
              || forall ch: char :: !Build.PrefixOfSome(s + [ch], words)
  {
    if Trace(nodes, s).Some? {
      var x := Trace(nodes, s).value;
      ExtendableIffChildren(nodes, x);
      forall ch: char
        ensures Trace(nodes, s + [ch]) == FindSubTree(nodes, x, [ch])
      {
        TraceSnoc(nodes, s, [ch]);
      }
    }
  }

  class GhostGame {
    /** The dictionary trie; node 0 is its root. */
    const nodes: seq<Node>
    const numHumanPlayers: int
    var currentNode: nat
    var currString: string
    var finalWord: Option<string>
    /** The name of the player who lost: the source keeps the loser under this name. */
    var winner: Option<string>

    /** While the game is on, the string spelled so far leads from the root
        to the current node; the game ends with both a final word and a loser. */
    ghost predicate Valid()
      reads this
    {
      && Trie.Valid(nodes)
      && currentNode < |nodes|
      && (winner.None? <==> finalWord.None?)
      && (winner.None? ==> Trace(nodes, currString) == Some(currentNode))
    }

    /** A game on the trie `root`, started at its root with nothing spelled. */
    constructor (numHumanPlayers: int, root: seq<Node>)
      requires Trie.Valid(root)
      ensures Valid()
      ensures nodes == root && this.numHumanPlayers == numHumanPlayers
      ensures currentNode == 0 && currString == "" && finalWord.None? && winner.None?
    {
      nodes := root;
      this.numHumanPlayers := numHumanPlayers;
      currentNode := 0;
      currString := "";
      finalWord := None;
      winner := None;
    }

    /** GhostGame.WordExtensionCheck: some letter can still be added. */
    function WordExtensionCheck(): (r: bool)
      reads this
      requires Trie.Valid(nodes) && currentNode < |nodes|
      ensures r <==> exists ch: char :: FindSubTree(nodes, currentNode, [ch]).Some?
    {
      ExtendableIffChildren(nodes, currentNode);
      nodes[currentNode].children != []
    }

    /** GhostGame.GameCheck: append the player's input, move to the child it
        names, and report whether the player has lost, recording the final
        word and the loser when so. For a single letter added to a game
        still on, the verdict is exactly the rule `Lost` on the new string. */
    method GameCheck(userInput: string, playerName: string) returns (over: bool)
      requires Valid()
      modifies this
      ensures Valid()
      ensures currString == old(currString) + userInput
      ensures var found := FindSubTree(nodes, old(currentNode), userInput);
        && (found.None? ==> over && currentNode == old(currentNode))
        && (found.Some? ==>
              && currentNode == found.value
              && (over <==> (nodes[found.value].isWord && |currString| > 3) || nodes[found.value].children == []))
      ensures over ==> finalWord == Some(currString) && winner == Some(playerName)
      ensures !over ==> finalWord == old(finalWord) && winner == old(winner)
      ensures old(winner).None? && |userInput| == 1 ==> (over <==> Lost(nodes, currString))
      ensures old(winner).None? && !over ==> |currString| == nodes[currentNode].value
    {
      if winner.None? && |userInput| == 1 {
        TraceSnoc(nodes, currString, userInput);
      }
      currString := currString + userInput;
      var treeNode := FindSubTree(nodes, currentNode, userInput);
      if treeNode.Some? {
        ChildFacts(nodes, currentNode, treeNode.value);
        currentNode := treeNode.value;
        if nodes[currentNode].isWord && |currString| > 3 {
          // the player has completed a word
          over := true;
        } else {
          // the player loses when the string cannot be extended
          over := !WordExtensionCheck();
        }
      } else {
        // the string cannot be extended to a word
        over := true;
      }
      if over {
        finalWord, winner := Some(currString), Some(playerName);
      }
    }
  }
}
