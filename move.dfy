/** GhostGame.ComputerMoveDecision: classify every child of the current node
    by the word ends the search finds below it, then pick one move by the
    priority win, best chance, losing, none. */
module MoveDecision {
  import opened Trie
  import opened Search

  /** Letters still to be played, the move `c` included, until the word
      ending at `w` is spelled. */
  function RemainRound(nodes: seq<Node>, c: nat, w: nat): int
    requires c < |nodes| && w < |nodes|
  {
    nodes[w].value - nodes[c].value + 1
  }

  /** The word end counts as "even" (the mover is safe) when the number of
      remaining rounds is a multiple of the number of players. Whether a
      remainder is zero does not depend on how the division rounds, so this
      agrees with Python's `%` for any non-zero divisor. */
  predicate EvenRound(nodes: seq<Node>, c: nat, w: nat, players: int)
    requires c < |nodes| && w < |nodes| && players != 0
  {
    RemainRound(nodes, c, w) % players == 0
  }

  /** For a word end the search yields below `c`, the remaining rounds are
      the letters on the path from `c` down to it, so at least one. */
  lemma RemainRoundIsPathLength(nodes: seq<Node>, c: nat, w: nat)
    requires Valid(nodes) && c < |nodes| && w in Collect(nodes, c)
    ensures w < |nodes| && RemainRound(nodes, c, w) >= 1
  {
    CollectSound(nodes, c, w);
    var p :| IsPath(nodes, p) && p[0] == c && p[|p| - 1] == w && Unblocked(nodes, p);
    PathDepth(nodes, p);
  }

  /** hasEvenRemainRound: how many of `ws` are even for the move `c`. */
  function EvenCount(nodes: seq<Node>, c: nat, players: int, ws: seq<nat>): (n: nat)
    requires c < |nodes| && players != 0 && forall t :: 0 <= t < |ws| ==> ws[t] < |nodes|
    ensures n <= |ws|
    ensures n == 0 <==> forall t :: 0 <= t < |ws| ==> !EvenRound(nodes, c, ws[t], players)
    ensures n == |ws| <==> forall t :: 0 <= t < |ws| ==> EvenRound(nodes, c, ws[t], players)
    decreases |ws|
  {
    if ws == [] then 0
    else
      EvenCount(nodes, c, players, ws[..|ws| - 1]) + if EvenRound(nodes, c, ws[|ws| - 1], players) then 1 else 0
  }

  /** hasOddRemainRound: how many of `ws` are not even for the move `c`. */
  function OddCount(nodes: seq<Node>, c: nat, players: int, ws: seq<nat>): (n: nat)
    requires c < |nodes| && players != 0 && forall t :: 0 <= t < |ws| ==> ws[t] < |nodes|
    ensures n + EvenCount(nodes, c, players, ws) == |ws|
    decreases |ws|
  {
    if ws == [] then 0
    else
      OddCount(nodes, c, players, ws[..|ws| - 1])
        + if EvenRound(nodes, c, ws[|ws| - 1], players) then 0 else 1
  }

  /** How the source files a child: a certain win, an uncertain move with
      its counts, a certain loss, or no word end below (in no list). */
  datatype Verdict = Win | Neutral(even: nat, odd: nat) | Lose | NoWordEnd

  /** The classification of child `c`, from the counts of even and odd word
      ends the search yields below it. */
  function Classify(nodes: seq<Node>, c: nat, players: int): (v: Verdict)
    requires Valid(nodes) && c < |nodes| && players != 0
    ensures v.Neutral? ==> 0 < v.even && 0 < v.odd
  {
    var ws := Collect(nodes, c);
    var even, odd := EvenCount(nodes, c, players, ws), OddCount(nodes, c, players, ws);
    if ws == [] then NoWordEnd
    else if even > 0 && odd == 0 then Win
    else if even > 0 && odd > 0 then Neutral(even, odd)
    else Lose
  }

  /** What the verdict means: a certain win when every word end below `c`
      is even, a certain loss when none is, uncertain with both kinds present
      (and the counts adding up), and no verdict when no word end is found. */
  lemma ClassifyMeaning(nodes: seq<Node>, c: nat, players: int)
    requires Valid(nodes) && c < |nodes| && players != 0
    ensures var v, ws := Classify(nodes, c, players), Collect(nodes, c);
      && (v == NoWordEnd <==> ws == [])
      && (v == Win <==> ws != [] && forall t :: 0 <= t < |ws| ==> EvenRound(nodes, c, ws[t], players))
      && (v == Lose <==> ws != [] && forall t :: 0 <= t < |ws| ==> !EvenRound(nodes, c, ws[t], players))
      && (v.Neutral? <==>
            && (exists t :: 0 <= t < |ws| && EvenRound(nodes, c, ws[t], players))
            && (exists t :: 0 <= t < |ws| && !EvenRound(nodes, c, ws[t], players)))
      && (v.Neutral? ==> v.even + v.odd == |ws|)
  {
  }

  /** An uncertain move with its counts of even and odd word ends. */
  datatype Scored = Scored(move: nat, even: nat, odd: nat)

  /** winningMoves over the children `cs`, in child order. */
  function WinningMoves(nodes: seq<Node>, cs: seq<nat>, players: int): (r: seq<nat>)
    requires Valid(nodes) && players != 0 && forall t :: 0 <= t < |cs| ==> cs[t] < |nodes|
    ensures forall c :: c in r <==> c in cs && Classify(nodes, c, players) == Win
    decreases |cs|
  {
    if cs == [] then []
    else
      var c, init := cs[|cs| - 1], cs[..|cs| - 1];
      assert cs == init + [c];
      WinningMoves(nodes, init, players) + if Classify(nodes, c, players) == Win then [c] else []
  }

  /** neutralMoves over the children `cs`, in child order, with their counts. */
  function NeutralMoves(nodes: seq<Node>, cs: seq<nat>, players: int): (r: seq<Scored>)
    requires Valid(nodes) && players != 0 && forall t :: 0 <= t < |cs| ==> cs[t] < |nodes|
    ensures forall t :: 0 <= t < |r| ==>
      r[t].move in cs && Classify(nodes, r[t].move, players) == Neutral(r[t].even, r[t].odd)
    ensures forall c :: c in cs && Classify(nodes, c, players).Neutral? ==>
      Scored(c, Classify(nodes, c, players).even, Classify(nodes, c, players).odd) in r
    decreases |cs|
  {
    if cs == [] then []
    else
      var c := cs[|cs| - 1];
      var v := Classify(nodes, c, players);
      NeutralMoves(nodes, cs[..|cs| - 1], players) + if v.Neutral? then [Scored(c, v.even, v.odd)] else []
  }

  /** losingMoves over the children `cs`, in child order. */
  function LosingMoves(nodes: seq<Node>, cs: seq<nat>, players: int): (r: seq<nat>)
    requires Valid(nodes) && players != 0 && forall t :: 0 <= t < |cs| ==> cs[t] < |nodes|
    ensures forall c :: c in r <==> c in cs && Classify(nodes, c, players) == Lose
    decreases |cs|
  {
    if cs == [] then []
    else
      var c, init := cs[|cs| - 1], cs[..|cs| - 1];
      assert cs == init + [c];
      LosingMoves(nodes, init, players) + if Classify(nodes, c, players) == Lose then [c] else []
  }

  /** No losing child, no losing move. */
  lemma {:induction false} LosingMovesNone(nodes: seq<Node>, cs: seq<nat>, players: int)
    requires Valid(nodes) && players != 0 && forall t :: 0 <= t < |cs| ==> cs[t] < |nodes|
    requires forall t :: 0 <= t < |cs| ==> Classify(nodes, cs[t], players) != Lose
    ensures LosingMoves(nodes, cs, players) == []
    decreases |cs|
  {
    if cs != [] {
      LosingMovesNone(nodes, cs[..|cs| - 1], players);
    }
  }

  /** The head of losingMoves is the first losing child in child order. */
  lemma {:induction false} LosingMovesFirst(nodes: seq<Node>, cs: seq<nat>, players: int, m: nat)
    requires Valid(nodes) && players != 0 && forall t :: 0 <= t < |cs| ==> cs[t] < |nodes|
    requires m < |cs| && Classify(nodes, cs[m], players) == Lose
    requires forall t :: 0 <= t < m ==> Classify(nodes, cs[t], players) != Lose
    ensures LosingMoves(nodes, cs, players) != [] && LosingMoves(nodes, cs, players)[0] == cs[m]
    decreases |cs|
  {
    var init := cs[..|cs| - 1];
    if m < |cs| - 1 {
      LosingMovesFirst(nodes, init, players, m);
    } else {
      LosingMovesNone(nodes, init, players);
    }
  }

  /** even/(even+odd) of `a` is below that of `b`; compared exactly, by cross-multiplying. */
  predicate RatioBelow(a: Scored, b: Scored) {
    a.even * (b.even + b.odd) < b.even * (a.even + a.odd)
  }

  /** Among the first `n` entries of `ns`, entry `m` has a maximal ratio and
      every entry before it a strictly smaller one. */
  ghost predicate BestAmongFirst(ns: seq<Scored>, n: nat, m: nat)
    requires n <= |ns|
  {
    && m < n
    && (forall j :: 0 <= j < n ==> !RatioBelow(ns[m], ns[j]))
    && (forall j :: 0 <= j < m ==> RatioBelow(ns[j], ns[m]))
  }

  lemma MulMono(x: int, y: int, z: int)
    requires x <= y && z >= 0
    ensures x * z <= y * z
  {
  }

  lemma MulStrict(x: int, y: int, z: int)
    requires x < y && z > 0
    ensures x * z < y * z
  {
  }

  lemma MulCancel(x: int, y: int, z: int)
    requires z > 0 && z * x < z * y
    ensures x < y
  {
    if y <= x {
      MulMono(y, x, z);
      assert false;
    }
  }

  /** A ratio not above one that is below a third is below the third. */
  lemma RatioBelowTrans(a: Scored, b: Scored, c: Scored)
    requires a.even + a.odd > 0 && b.even + b.odd > 0 && c.even + c.odd > 0
    requires !RatioBelow(b, a) && RatioBelow(b, c)
    ensures RatioBelow(a, c)
  {
    var A, B, C := a.even + a.odd, b.even + b.odd, c.even + c.odd;
    MulMono(a.even * B, b.even * A, C);
    MulStrict(b.even * C, c.even * B, A);
    assert a.even * B * C == B * (a.even * C);
    assert b.even * A * C == b.even * C * A;
    assert c.even * B * A == B * (c.even * A);
    MulCancel(a.even * C, c.even * A, B);
  }

  /** The counting loop of ComputerMoveDecision over the word ends `ws`
      found below child `c`. */
  method CountRemainRounds(nodes: seq<Node>, c: nat, players: int, ws: seq<nat>)
    returns (hasEvenRemainRound: nat, hasOddRemainRound: nat)
    requires c < |nodes| && players != 0 && forall t :: 0 <= t < |ws| ==> ws[t] < |nodes|
    ensures hasEvenRemainRound == EvenCount(nodes, c, players, ws)
    ensures hasOddRemainRound == OddCount(nodes, c, players, ws)
  {
    hasEvenRemainRound, hasOddRemainRound := 0, 0;
    for j := 0 to |ws|
      invariant hasEvenRemainRound == EvenCount(nodes, c, players, ws[..j])
      invariant hasOddRemainRound == OddCount(nodes, c, players, ws[..j])
    {
      CountsSnoc(nodes, c, players, ws, j);
      // are the rounds left until this word end a multiple of the players?
      if EvenRound(nodes, c, ws[j], players) {
        hasEvenRemainRound := hasEvenRemainRound + 1;
      } else {
        hasOddRemainRound := hasOddRemainRound + 1;
      }
    }
    assert ws[..|ws|] == ws;
  }

  /** Counting one more word end adds it to the even or to the odd count. */
  lemma CountsSnoc(nodes: seq<Node>, c: nat, players: int, ws: seq<nat>, j: nat)
    requires c < |nodes| && players != 0 && j < |ws| && forall t :: 0 <= t < |ws| ==> ws[t] < |nodes|
    ensures EvenCount(nodes, c, players, ws[..j + 1])
            == EvenCount(nodes, c, players, ws[..j]) + if EvenRound(nodes, c, ws[j], players) then 1 else 0
    ensures OddCount(nodes, c, players, ws[..j + 1])
            == OddCount(nodes, c, players, ws[..j]) + if EvenRound(nodes, c, ws[j], players) then 0 else 1
  {
    PrefixSnoc(ws, j);
  }

  /** The best-chance loop of ComputerMoveDecision: the first uncertain move
      whose share of even word ends is maximal (a later one replaces it only
      when strictly better). */
  method MaxChanceMove(neutralMoves: seq<Scored>) returns (maxChanceMove: Scored, ghost best: nat)
    requires neutralMoves != []
    requires forall j :: 0 <= j < |neutralMoves| ==> neutralMoves[j].even + neutralMoves[j].odd > 0
    ensures BestAmongFirst(neutralMoves, |neutralMoves|, best) && maxChanceMove == neutralMoves[best]
  {
    var current: Option<Scored> := None;
    best := 0;
    for t := 0 to |neutralMoves|
      invariant t == 0 <==> current.None?
      invariant t > 0 ==> BestAmongFirst(neutralMoves, t, best) && current == Some(neutralMoves[best])
    {
      var p := neutralMoves[t];
      if current.None? {
        current, best := Some(p), t;
      } else if RatioBelow(current.value, p) {
        NewBest(neutralMoves, t, best);
        current, best := Some(p), t;
      }
    }
    maxChanceMove := current.value;
  }

  /** The step of the best-chance loop that replaces the running maximum. */
  lemma NewBest(ns: seq<Scored>, t: nat, best: nat)
    requires forall j :: 0 <= j < |ns| ==> ns[j].even + ns[j].odd > 0
    requires t < |ns| && BestAmongFirst(ns, t, best) && RatioBelow(ns[best], ns[t])
    ensures BestAmongFirst(ns, t + 1, t)
  {
    forall j | 0 <= j < t
      ensures RatioBelow(ns[j], ns[t])
    {
      RatioBelowTrans(ns[j], ns[best], ns[t]);
    }
  }

  /** The longest-game loop of ComputerMoveDecision over the losing moves,
      all children of node `i`: since they share one depth, no later move is
      ever longer and the first one is kept. */
  method MaxExtensionMove(nodes: seq<Node>, i: nat, losingMoves: seq<nat>) returns (maxExtensionMove: nat)
    requires Valid(nodes) && i < |nodes| && losingMoves != []
    requires forall c :: c in losingMoves ==> c in nodes[i].children
    ensures maxExtensionMove == losingMoves[0] && maxExtensionMove < |nodes|
    ensures forall c :: c in losingMoves ==> c < |nodes| && nodes[c].value <= nodes[maxExtensionMove].value
  {
    var current: Option<nat> := None;
    forall c | c in losingMoves
      ensures c < |nodes| && nodes[c].value == nodes[i].value + 1
    {
      ChildFacts(nodes, i, c);
    }
    assert losingMoves[0] in losingMoves;
    for t := 0 to |losingMoves|
      invariant t == 0 <==> current.None?
      invariant t > 0 ==> current == Some(losingMoves[0])
    {
      var c := losingMoves[t];
      assert c in losingMoves;
      if current.None? {
        current := Some(c);
      } else if nodes[current.value].value < nodes[c].value {
        // a later losing move is never longer
        assert false;
      }
    }
    maxExtensionMove := current.value;
  }

  /** The classification loop of ComputerMoveDecision: the three lists of
      moves over the children `cs`. */
  method ClassifyMoves(nodes: seq<Node>, cs: seq<nat>, players: int)
    returns (winningMoves: seq<nat>, neutralMoves: seq<Scored>, losingMoves: seq<nat>)
    requires Valid(nodes) && players != 0 && forall t :: 0 <= t < |cs| ==> cs[t] < |nodes|
    ensures winningMoves == WinningMoves(nodes, cs, players)
    ensures neutralMoves == NeutralMoves(nodes, cs, players)
    ensures losingMoves == LosingMoves(nodes, cs, players)
  {
    winningMoves, neutralMoves, losingMoves := [], [], [];
    for i := 0 to |cs|
      invariant winningMoves == WinningMoves(nodes, cs[..i], players)
      invariant neutralMoves == NeutralMoves(nodes, cs[..i], players)
      invariant losingMoves == LosingMoves(nodes, cs[..i], players)
    {
      var c := cs[i];
      assert c in cs;
      FiltersSnoc(nodes, cs, i, players);
      ghost var v := Classify(nodes, c, players);
      var allFoundWords := DepthFirstAllWordsSearch(nodes, c);
      if allFoundWords.Some? {
        var hasEvenRemainRound, hasOddRemainRound := CountRemainRounds(nodes, c, players, allFoundWords.value);
        if hasEvenRemainRound > 0 && hasOddRemainRound == 0 {
          // certain win
          assert v == Win;
          winningMoves := winningMoves + [c];
        } else if hasEvenRemainRound > 0 && hasOddRemainRound > 0 {
          // uncertain
          assert v == Neutral(hasEvenRemainRound, hasOddRemainRound);
          neutralMoves := neutralMoves + [Scored(c, hasEvenRemainRound, hasOddRemainRound)];
        } else if hasEvenRemainRound == 0 && hasOddRemainRound > 0 {
          // certain loss
          assert v == Lose;
          losingMoves := losingMoves + [c];
        } else {
          // the source's lastMove: a non-empty list has an even or an odd word end
          assert false;
        }
      } else {
        assert v == NoWordEnd;
      }
    }
    assert cs[..|cs|] == cs;
  }

  /** One more child extends each of the three lists by that child or by nothing. */
  lemma FiltersSnoc(nodes: seq<Node>, cs: seq<nat>, i: nat, players: int)
    requires Valid(nodes) && players != 0 && forall t :: 0 <= t < |cs| ==> cs[t] < |nodes|
    requires i < |cs|
    ensures var c, v := cs[i], Classify(nodes, cs[i], players);
      && WinningMoves(nodes, cs[..i + 1], players)
           == WinningMoves(nodes, cs[..i], players) + (if v == Win then [c] else [])
      && NeutralMoves(nodes, cs[..i + 1], players)
           == NeutralMoves(nodes, cs[..i], players) + (if v.Neutral? then [Scored(c, v.even, v.odd)] else [])
      && LosingMoves(nodes, cs[..i + 1], players)
           == LosingMoves(nodes, cs[..i], players) + (if v == Lose then [c] else [])
  {
    PrefixSnoc(cs, i);
  }

  /** GhostGame.ComputerMoveDecision for the game's current node and number
      of human players (the computer is one more player). With a total of
      zero players every remainder raises: each child with a word end below
      it is skipped by the source's handler, the others find nothing, so no
      child is classified and no move is found. */
  method ComputerMoveDecision(nodes: seq<Node>, currentNode: nat, numHumanPlayers: int)
    returns (nextMove: Option<nat>)
    requires Valid(nodes) && currentNode < |nodes|
    ensures nextMove.Some? ==> nextMove.value in nodes[currentNode].children
    ensures numHumanPlayers + 1 == 0 ==> nextMove.None?
    ensures numHumanPlayers + 1 != 0 ==> ChosenMove(nodes, currentNode, numHumanPlayers + 1, nextMove)
  {
    var players := numHumanPlayers + 1;
    if players == 0 {
      // each child with a word end below it raises ZeroDivisionError and is
      // skipped; the others find nothing: no child is classified
      return None;
    }
    var children := nodes[currentNode].children;
    ChildrenInRange(nodes, currentNode);
    // peek at all the letter choices
    var winningMoves, neutralMoves, losingMoves := ClassifyMoves(nodes, children, players);
    if |winningMoves| > 0 {
      // random.choice: any winning move
      assert winningMoves[0] in winningMoves;
      var pick :| pick in winningMoves;
      nextMove := Some(pick);
      ChosenWin(nodes, currentNode, players, pick);
    } else if |neutralMoves| > 0 {
      forall j | 0 <= j < |neutralMoves|
        ensures neutralMoves[j].even + neutralMoves[j].odd > 0
      {
        assert Classify(nodes, neutralMoves[j].move, players).Neutral?;
      }
      var maxChanceMove, best := MaxChanceMove(neutralMoves);
      nextMove := Some(maxChanceMove.move);
      ChosenNeutral(nodes, currentNode, players, best);
    } else if |losingMoves| > 0 {
      var maxExtensionMove := MaxExtensionMove(nodes, currentNode, losingMoves);
      nextMove := Some(maxExtensionMove);
      ChosenLosing(nodes, currentNode, players);
    } else {
      // the source returns lastMove here, which no child ever sets
      nextMove := None;
      ChosenNone(nodes, currentNode, players);
    }
  }

  /** The choice rule of ComputerMoveDecision for a non-zero number of
      players: a winning move if there is one; else the first uncertain move
      with the best share of even word ends; else the first losing move,
      which no other losing move outlasts; and no move only when no child
      has a word end below it. */
  ghost predicate ChosenMove(nodes: seq<Node>, currentNode: nat, players: int, nextMove: Option<nat>)
    requires Valid(nodes) && currentNode < |nodes| && players != 0
  {
    ChildrenInRange(nodes, currentNode);
    var cs := nodes[currentNode].children;
    var W, N, L := WinningMoves(nodes, cs, players), NeutralMoves(nodes, cs, players), LosingMoves(nodes, cs, players);
    && (nextMove.None? <==> forall c :: c in cs ==> Classify(nodes, c, players) == NoWordEnd)
    && (W != [] ==> nextMove.Some? && nextMove.value in W)
    && (W == [] && N != [] ==> exists m: nat :: BestAmongFirst(N, |N|, m) && nextMove == Some(N[m].move))
    && (W == [] && N == [] && L != [] ==> nextMove == Some(L[0]))
  }

  lemma ChosenWin(nodes: seq<Node>, i: nat, players: int, pick: nat)
    requires Valid(nodes) && i < |nodes| && players != 0
    requires forall t :: 0 <= t < |nodes[i].children| ==> nodes[i].children[t] < |nodes|
    requires pick in WinningMoves(nodes, nodes[i].children, players)
    ensures ChosenMove(nodes, i, players, Some(pick))
  {
    assert pick in nodes[i].children && Classify(nodes, pick, players) == Win;
  }

  lemma ChosenNeutral(nodes: seq<Node>, i: nat, players: int, best: nat)
    requires Valid(nodes) && i < |nodes| && players != 0
    requires forall t :: 0 <= t < |nodes[i].children| ==> nodes[i].children[t] < |nodes|
    requires WinningMoves(nodes, nodes[i].children, players) == []
    requires var N := NeutralMoves(nodes, nodes[i].children, players);
      N != [] && BestAmongFirst(N, |N|, best)
    ensures ChosenMove(nodes, i, players, Some(NeutralMoves(nodes, nodes[i].children, players)[best].move))
  {
    var N := NeutralMoves(nodes, nodes[i].children, players);
    assert N[best].move in nodes[i].children && Classify(nodes, N[best].move, players).Neutral?;
  }

  lemma ChosenLosing(nodes: seq<Node>, i: nat, players: int)
    requires Valid(nodes) && i < |nodes| && players != 0
    requires forall t :: 0 <= t < |nodes[i].children| ==> nodes[i].children[t] < |nodes|
    requires WinningMoves(nodes, nodes[i].children, players) == []
    requires NeutralMoves(nodes, nodes[i].children, players) == []
    requires LosingMoves(nodes, nodes[i].children, players) != []
    ensures ChosenMove(nodes, i, players, Some(LosingMoves(nodes, nodes[i].children, players)[0]))
  {
    var L := LosingMoves(nodes, nodes[i].children, players);
    assert L[0] in L;
    assert L[0] in nodes[i].children && Classify(nodes, L[0], players) == Lose;
  }

  lemma ChosenNone(nodes: seq<Node>, i: nat, players: int)
    requires Valid(nodes) && i < |nodes| && players != 0
    requires forall t :: 0 <= t < |nodes[i].children| ==> nodes[i].children[t] < |nodes|
    requires WinningMoves(nodes, nodes[i].children, players) == []
    requires NeutralMoves(nodes, nodes[i].children, players) == []
    requires LosingMoves(nodes, nodes[i].children, players) == []
    ensures ChosenMove(nodes, i, players, None)
  {
  }

  lemma ChildrenInRange(nodes: seq<Node>, i: nat)
    requires Valid(nodes) && i < |nodes|
    ensures forall t :: 0 <= t < |nodes[i].children| ==> nodes[i].children[t] < |nodes|
  {
    forall t | 0 <= t < |nodes[i].children|
      ensures nodes[i].children[t] < |nodes|
    {
      ChildFacts(nodes, i, nodes[i].children[t]);
    }
  }
}
