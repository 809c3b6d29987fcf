# Ghost: a verified model of the trie, the word-end search and the computer's move choice

`optimalGhost_v3.py` plays Ghost. Players take turns adding one letter to a
string. A player loses when the letter completes a dictionary word of four or
more letters, or when it leaves a string that no dictionary word starts with.
The program keeps the dictionary in a letter trie (`BTree`). It finds the word
ends below each possible next letter and picks the computer's letter from how
many rounds each of those word ends is away. This project models that core in
Dafny. It proves that the trie marks exactly the inserted words as word
ends and spells exactly their prefixes, what the
word-end search yields, how each candidate letter is classified and which one
is chosen, and how one turn changes the game's state.

The modules follow the program's parts:

- `Trie` (`trie.dfy`) holds the trie as an arena: a sequence of nodes with the
  root at index 0.
  - Each `Node` has its letter (`name`), its depth (`value`), its `isWord`
    flag, and the indices of its children in the order they were added.
  - `Valid` is the shape every built trie has. Children lie one level below
    their parent, carry a single letter, have distinct letters among
    siblings, and have exactly one parent.
  - `FindSubTree` is `BTree.findSubTree`. `Trace` follows it letter by
    letter from the root.
- `Build` (`build.dfy`) holds `buildABTree`. `InsertWord` is its loop over
  the letters of one word.
- `Search` (`search.dfy`) holds `dfawsHelper` and `depthFirstAllWordsSearch`.
  They are proved against `Collect`, a function giving what the search
  yields, in order. `Collect` is in turn characterised by paths down the trie.
- `MoveDecision` (`move.dfy`) holds `GhostGame.ComputerMoveDecision`.
  - It runs over the trie, the current node and the number of human players.
  - Each loop of the source is a method: `ClassifyMoves`,
    `CountRemainRounds`, `MaxChanceMove` and `MaxExtensionMove`.
  - Each loop is proved against a function on the children: `Classify`,
    `WinningMoves`, `NeutralMoves` and `LosingMoves`.
  - Which move is chosen is stated by `ChosenMove`.
- `Game` (`game.dfy`) holds the class `GhostGame`.
  - Its fields are the current node, the string so far, the final word and
    `winner`.
  - As in the source, `winner` records the player who lost.
  - It has `WordExtensionCheck` and `GameCheck`.

Where the program's comments and the code differ, the model follows the code:

- A losing position does not pick the letter that makes the game last
  longest. The "longest" comparison (`optimalGhost_v3.py:257`) compares the
  depths of siblings, which are always equal. So the first losing child in
  child order is always kept (`MaxExtensionMove`, `LosingMovesFirst`).
- No fallback move exists for a letter with no word end below it.
  - The `lastMove` branch (`optimalGhost_v3.py:227-229`) is unreachable: the
    count block only runs on a non-empty list of word ends.
  - So when no child has a qualifying word end below it, the result is "no
    move" (`None`).
- Words are inserted into the trie as they are. No letter outside a-z is
  rejected, and nothing is lower-cased.
- The word-end search stops at the first qualifying word end on each branch.
  It does not go below that word end.

## Model

| member | source | states |
|---|---|---|
| Trie.FindIn | optimalGhost_v3.py:65-70 | the scan over a children list returns a listed child carrying the name, and returns none only when no listed child carries it |
| Trie.FindInFirst | optimalGhost_v3.py:65-70 | a child the scan returns is the first listed child carrying the name |
| Trie.FindSubTree | optimalGhost_v3.py:62-70 | the lookup returns a child of the node with that letter, and returns one whenever such a child exists (since sibling letters are distinct, it is that child) |
| Trie.SiblingsUnique | optimalGhost_v3.py:133-142 | in a valid trie, two children of one node with the same letter are the same node (insertion reuses a child instead of adding a second one) |
| Trie.ChildFacts | optimalGhost_v3.py:139-140 | every child lies after its parent in the arena, is one level deeper, and is named by one letter |
| Trie.ParentUnique | optimalGhost_v3.py:139-140 | a node hangs under a single parent |
| Trie.Trace | optimalGhost_v3.py:132-142 | following findSubTree letter by letter from the root, when it succeeds, ends at a node whose depth is the length of the string |
| Trie.TraceLast | optimalGhost_v3.py:133-136 | the node a non-empty string leads to is a child of the node its prefix leads to, named by the last letter |
| Trie.TraceSnoc | optimalGhost_v3.py:133-136 | spelling one more letter from a reachable node is the findSubTree of that letter |
| Trie.TraceInjective | optimalGhost_v3.py:132-142 | two strings spelled to the same node are equal: each node stands for one prefix |
| Trie.TracePrefix | optimalGhost_v3.py:132-142 | every prefix of a spellable string is spellable |
| Trie.PathIncreases | optimalGhost_v3.py:139-140 | along a downward path the nodes are strictly increasing, so a path never returns to a node |
| Trie.PathDepth | optimalGhost_v3.py:139 | a downward path of n nodes descends n-1 levels |
| Trie.PathSuffix | optimalGhost_v3.py:139-140 | of two downward paths ending at one node, the shorter is the tail of the longer (the trie is a tree) |
| Build.TraceGrows | optimalGhost_v3.py:131-144 | growing the trie keeps every spellable string leading to the same node, and a string now leading to an old node led there before |
| Build.AddChildKeepsValid | optimalGhost_v3.py:138-140 | appending a child one level down whose letter is new among its siblings keeps the trie valid |
| Build.AddChildEdges | optimalGhost_v3.py:139-140 | after the append every child is still a later node, one level below its parent, named by one letter |
| Build.AddChildSiblings | optimalGhost_v3.py:138-140 | after the append no two siblings share a letter, because the new letter was missing among the parent's children |
| Build.AddChildParents | optimalGhost_v3.py:140 | after the append every node still hangs under exactly one parent, once |
| Build.AddChildGrows | optimalGhost_v3.py:140 | addChild only appends a node and extends the parent's list at its end |
| Build.AddChildWords | optimalGhost_v3.py:139-140 | the new node is not a word end, so the set of word-end nodes is unchanged |
| Build.NewLetterTrace | optimalGhost_v3.py:138-142 | after the new child is added, the word's first i+1 letters lead to it |
| Build.NewLetterStep | optimalGhost_v3.py:137-142 | the step that creates a node for the next letter keeps the walk's invariant: the trie stays valid and only grows, no new node is a word end, every new node is where a prefix of the word leads, and the first i+1 letters lead to the new node |
| Build.ReuseStep | optimalGhost_v3.py:133-136 | the step that reuses the child with the next letter keeps the walk's invariant, with that child as the current node |
| Build.NewNodesStep | optimalGhost_v3.py:137-142 | every node created while inserting a word is where the word's first d letters lead, d being the node's depth |
| Build.FinishInsert | optimalGhost_v3.py:144 | marking the node the whole word leads to yields a valid, grown trie whose words are the old ones plus the word and whose spellable strings are the old ones plus the word's prefixes |
| Build.InsertedPrefixes | optimalGhost_v3.py:131-144 | after an insertion the trie spells a string exactly when it spelled it before or the string is a prefix of the inserted word |
| Build.InsertedPrefix | optimalGhost_v3.py:131-144 | the same, for one string |
| Build.MarkKeepsShape | optimalGhost_v3.py:144 | setting isWord changes no letter, depth or child, and keeps the trie valid |
| Build.InsertedWords | optimalGhost_v3.py:144 | after marking, the words of the trie are the old ones plus the inserted word |
| Build.InsertWord | optimalGhost_v3.py:131-144 | inserting one word keeps the trie valid and only grows it; afterwards the word is spelled to a word end, the word set is exactly the old words plus this one, and the spellable strings are exactly the old ones plus the prefixes of the word; for a word already spelled, only its end node's isWord flag is set and the shape is unchanged |
| Build.BuildABTree | optimalGhost_v3.py:126-147 | none exactly for an empty word list; otherwise a valid trie rooted at "root" whose words (spelled from the root to a node marked isWord) are exactly the listed words, and which spells a string exactly when it is a prefix of a listed word |
| Build.AddChild | optimalGhost_v3.py:59-60 | (no contract of its own) appends the new node and adds its index at the end of the parent's children; AddChildGrows and AddChildKeepsValid state its properties |
| Build.LeafIsWord | optimalGhost_v3.py:126-147 | in a trie built from a word list, a spelled string whose node has no children is one of the words: the trie has no dead-end branches |
| Search.Collect | optimalGhost_v3.py:72-90 | every node the search from i yields is i or a later node, and ends a word of more than three letters |
| Search.CollectChildren | optimalGhost_v3.py:78-79 | what the children yield lies strictly after the node and qualifies |
| Search.DfawsHelper | optimalGhost_v3.py:72-79 | dfawsHelper appends exactly what the search from the node yields, in order, to the accumulator |
| Search.Qualifies | optimalGhost_v3.py:75 | (no contract of its own) the test `isWord and value > 3` that makes the search keep a node and stop there |
| Search.DepthFirstAllWordsSearch | optimalGhost_v3.py:81-95 | the result is none (the source's False) exactly when nothing qualifies, and is otherwise the yielded list |
| Search.CollectSound | optimalGhost_v3.py:72-90 | every yielded node qualifies and is reached from the start node by a downward path that passes no earlier qualifying node |
| Search.PathCons | optimalGhost_v3.py:75-79 | the search goes on from a non-qualifying node into its children, so that node reaches unblocked whatever an unblocked path from a child reaches |
| Search.CollectComplete | optimalGhost_v3.py:72-90 | every qualifying node reached by such a path is yielded |
| Search.CollectAntichain | optimalGhost_v3.py:75-79 | no yielded node lies below another yielded node |
| MoveDecision.RemainRoundIsPathLength | optimalGhost_v3.py:210 | for each word end found below a child, remainRound is at least one |
| MoveDecision.RemainRound | optimalGhost_v3.py:210 | (no contract of its own) the rounds still to play until a word end, the move included; RemainRoundIsPathLength states it is at least one |
| MoveDecision.EvenRound | optimalGhost_v3.py:211 | (no contract of its own) the remaining rounds are a multiple of the number of players; the zero test agrees with Python's `%` for any non-zero divisor |
| MoveDecision.EvenCount | optimalGhost_v3.py:209-214 | hasEvenRemainRound is zero iff no word end is even, and is the full count iff all are |
| MoveDecision.OddCount | optimalGhost_v3.py:209-214 | hasOddRemainRound and hasEvenRemainRound add up to the number of word ends |
| MoveDecision.Classify | optimalGhost_v3.py:208-229 | an uncertain verdict carries positive even and odd counts |
| MoveDecision.ClassifyMeaning | optimalGhost_v3.py:208-231 | a child is a certain win iff it has word ends and all are even; a certain loss iff it has word ends and none is even; uncertain iff both kinds occur (with counts summing to the number of word ends); and in no list iff no word end is found |
| MoveDecision.WinningMoves | optimalGhost_v3.py:216-218 | a child is in winningMoves iff it is among the children and classified a certain win |
| MoveDecision.NeutralMoves | optimalGhost_v3.py:219-223 | every entry is a child with its uncertain counts, and every uncertain child has its entry |
| MoveDecision.LosingMoves | optimalGhost_v3.py:224-226 | a child is in losingMoves iff it is among the children and classified a certain loss |
| MoveDecision.LosingMovesNone | optimalGhost_v3.py:224-226 | with no losing child, losingMoves is empty |
| MoveDecision.LosingMovesFirst | optimalGhost_v3.py:224-226 | the head of losingMoves is the first losing child in child order |
| MoveDecision.RatioBelow | optimalGhost_v3.py:243-248 | (no contract of its own) a's share of even word ends is strictly below b's, compared exactly by cross-multiplying; RatioBelowTrans states its transitivity |
| MoveDecision.RatioBelowTrans | optimalGhost_v3.py:243-248 | the exact ratio comparison is transitive across a ratio not above the first |
| MoveDecision.CountRemainRounds | optimalGhost_v3.py:209-214 | the counting loop yields the even and odd counts of the word ends |
| MoveDecision.CountsSnoc | optimalGhost_v3.py:210-214 | one more word end adds one to the even count when its remaining rounds are a multiple of the players, and one to the odd count otherwise |
| MoveDecision.MaxChanceMove | optimalGhost_v3.py:239-251 | the best-chance loop returns the first uncertain move whose share of even word ends is maximal |
| MoveDecision.NewBest | optimalGhost_v3.py:248-250 | a strictly better ratio becomes the new running maximum over all moves seen so far |
| MoveDecision.MaxExtensionMove | optimalGhost_v3.py:253-259 | the longest-game loop keeps the first losing move, and no losing move is deeper |
| MoveDecision.ClassifyMoves | optimalGhost_v3.py:199-233 | the classification loop builds exactly the three lists, in child order |
| MoveDecision.FiltersSnoc | optimalGhost_v3.py:216-226 | classifying one more child appends it to the list its verdict names and leaves the other two lists unchanged |
| MoveDecision.ChosenWin | optimalGhost_v3.py:235-236 | any winning move satisfies the choice rule |
| MoveDecision.ChosenNeutral | optimalGhost_v3.py:238-251 | with no winning move, the best uncertain move satisfies the choice rule |
| MoveDecision.ChosenLosing | optimalGhost_v3.py:252-259 | with no winning or uncertain move, the first losing move satisfies the choice rule |
| MoveDecision.ChosenNone | optimalGhost_v3.py:260-261 | with no classified child, no move satisfies the choice rule |
| MoveDecision.ComputerMoveDecision | optimalGhost_v3.py:184-263 | the move is a child of the current node. No move is made when the player total is zero. Otherwise: a winning move if any; else the first uncertain move with a maximal ratio; else the first losing child; and no move exactly when no child has a word end below it |
| Game.ExtendableIffChildren | optimalGhost_v3.py:178-182 | a node has children iff some single letter can follow it |
| Game.LostInDictionary | optimalGhost_v3.py:265-300 | for a trie built from a word list, the loss rule of the game reads over the dictionary: the string begins no listed word, or is a listed word of four or more letters, or no listed word continues it by a letter |
| Game.GhostGame.constructor | optimalGhost_v3.py:152-159 | a new game is on, with nothing spelled, at the root of the given trie |
| Game.GhostGame.WordExtensionCheck | optimalGhost_v3.py:178-182 | true iff some letter can still be added at the current node |
| Game.GhostGame.GameCheck | optimalGhost_v3.py:265-300 | the input is always appended. An input naming no child ends the game with the node unchanged. Otherwise the game moves to that child and ends iff the child completes a word with the string over three letters, or has no children. When it ends, the final word is recorded and the player is recorded under `winner`. For one letter added to a game still on, the game ends iff the new string breaks the rules of Ghost as `Lost` states them over the trie: the trie cannot spell it, it completes a word of 4+ letters, or its node has no children (LostInDictionary restates this over the word list for a trie built by BuildABTree). While on, the string's length equals the current node's depth |

## Left out

- `getLocalPathFromThisSourceFile` and `parseInputFile` read the word list from a file. The word list is a parameter of `BuildABTree`.
- `promptHumanInput` is an interactive input loop. `GameCheck` takes the input as a string.
- `playGame` and `main` print to the console and drive the turns. The model covers a single `GameCheck` transition and the "no move" result of `ComputerMoveDecision`.
- The `BTree` constructor's `children` argument is never used by the program and is not modelled. The `id` argument of `GhostGame` is ignored, as in the source.
- `BuildABTree`: the `None` word list is represented by the empty list, since both take the same branch.
- `MoveDecision.ComputerMoveDecision`: `random.choice` is not modelled. The contract says only that the pick is one of the winning moves.
- `MoveDecision.MaxChanceMove`: the source compares floating-point quotients. The model compares the exact ratios by cross-multiplying (`MoveDecision.RatioBelow`), so ties that rounding would break are not modelled.
- `MoveDecision.ComputerMoveDecision`: the bare `except` is modelled only for a player total of zero. There every child with a word end below it raises ZeroDivisionError and the handler skips it; the other children find nothing, so no child is classified and the result is None. A `numHumanPlayers` that is not an integer is not modelled.
- `Game.GhostGame.constructor`: it starts the game at node 0 of the trie it is given, as `main` does with the root returned by `buildABTree`. Starting at another node is not modelled.
- `ComputerMoveDecision` is a module-level method over the game's trie, current node and `numHumanPlayers`, not a method of the class.
- Strings are sequences of characters. The source runs on Python 2, where a `str` is a byte string: `enumerate(word)` and `len(self.currString)` count bytes. So for a word with non-ASCII letters the source's depths and lengths count bytes where the model counts characters.
- `Game.GhostGame.constructor`: it requires a valid trie. With an empty word list `buildABTree` returns None and `main` still starts a game on it, whose first `GameCheck` fails on a missing attribute. That crash is not modelled.
- The `self is None` tests in `findSubTree`, `dfawsHelper` and `depthFirstAllWordsSearch` can never be true for a method call, so they are not modelled.
