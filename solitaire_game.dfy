/**
 * `SolitaireGame` (main.cpp:153-250): a best-first search over game states.
 *
 * The visited table maps keys to 0 (enqueued) or 1 (expanded); the frontier
 * is a sequence from which a state of maximal priority is removed.
 */
module Search {
  import opened StateKey
  import opened GameStates

  /** The two statuses of `hashes_processed_` (main.cpp:174, 207, 236). */
  const Enqueued: int := 0
  const Expanded: int := 1

  /** The verdict of `Solve`, plus the case where the step bound ran out. */
  datatype Outcome = Solvable | Unsolvable | StepLimit

  /** The visited table and the frontier together. */
  datatype Table = Table(visited: map<string, int>, frontier: seq<GameState>)

  /** A state of this game: its configuration and its `number_of_decks` decks. */
  predicate WellFormed(cfg: Config, s: GameState)
  {
    ValidConfig(cfg) && s.cfg == cfg && |s.decks| == cfg.numberOfDecks
  }

  // ---------------------------------------------------------------------
  // Successors, in the order SpawnNewStates builds them (main.cpp:214-240)
  // ---------------------------------------------------------------------

  /** The state built from the decks with the top of deck i moved onto deck j. */
  function Successor(s: GameState, i: nat, j: nat): (c: GameState)
    requires ValidConfig(s.cfg)
    requires i < |s.decks| && j < |s.decks| && i != j && s.decks[i] != []
    ensures c.cfg == s.cfg && |c.decks| == |s.decks| && !c.final
  {
    var moved := Move(s.decks, i, j);
    assert moved[j] != [];
    MakeState(s.cfg, moved)
  }

  /** The move of the top card of deck `source` onto deck `target`. */
  datatype Transfer = Transfer(source: nat, target: nat)

  /** Every move of `ts` is legal in `s`. */
  predicate AllLegal(s: GameState, ts: seq<Transfer>)
  {
    forall k :: 0 <= k < |ts| ==> LegalMove(s, ts[k].source, ts[k].target)
  }

  /** The moves the inner loop (main.cpp:218-239) makes from the non-empty deck i, destinations below m, in loop order. */
  function MovesFrom(s: GameState, i: nat, m: nat): (ts: seq<Transfer>)
    requires i < |s.decks| && m <= |s.decks| && !IsDeckEmpty(s, i)
  {
    if m == 0 then []
    else
      var j := m - 1;
      MovesFrom(s, i, j) + (if i != j && GetTopCard(s, i) < GetTopCard(s, j) then [Transfer(i, j)] else [])
  }

  /** The moves the outer loop (main.cpp:214-240) makes from the source decks below m, in loop order. */
  function MovesBelow(s: GameState, m: nat): (ts: seq<Transfer>)
    requires m <= |s.decks|
  {
    if m == 0 then []
    else MovesBelow(s, m - 1) + (if IsDeckEmpty(s, m - 1) then [] else MovesFrom(s, m - 1, |s.decks|))
  }

  lemma AppendLeft<T>(a: seq<T>, b: seq<T>, k: nat)
    requires k < |a|
    ensures (a + b)[k] == a[k]
  {
  }

  lemma AppendRight<T>(a: seq<T>, b: seq<T>, k: nat)
    requires k < |b|
    ensures (a + b)[|a| + k] == b[k]
  {
  }

  /** Every legal move from deck i onto a deck below m is listed, at the returned position. */
  lemma {:induction false} MovesFromComplete(s: GameState, i: nat, m: nat, j: nat) returns (k: nat)
    requires i < |s.decks| && m <= |s.decks| && !IsDeckEmpty(s, i)
    requires j < m && LegalMove(s, i, j)
    ensures k < |MovesFrom(s, i, m)| && MovesFrom(s, i, m)[k] == Transfer(i, j)
  {
    var p: nat :| p + 1 == m;
    var prefix := MovesFrom(s, i, p);
    var row := if i != p && GetTopCard(s, i) < GetTopCard(s, p) then [Transfer(i, p)] else [];
    assert MovesFrom(s, i, p + 1) == prefix + row;
    if j < p {
      k := MovesFromComplete(s, i, p, j);
      AppendLeft(prefix, row, k);
    } else {
      k := |prefix|;
      AppendRight(prefix, row, 0);
    }
  }

  /** The inner loop's step: the move onto deck j is listed exactly when it is legal. */
  lemma MovesFromNext(s: GameState, i: nat, j: nat)
    requires i < |s.decks| && j < |s.decks| && !IsDeckEmpty(s, i)
    ensures MovesFrom(s, i, j + 1) == MovesFrom(s, i, j) + (if LegalMove(s, i, j) then [Transfer(i, j)] else [])
  {
  }

  /** Every legal move from a deck below m is listed, at the returned position. */
  lemma {:induction false} MovesBelowComplete(s: GameState, m: nat, i: nat, j: nat) returns (k: nat)
    requires m <= |s.decks|
    requires i < m && LegalMove(s, i, j)
    ensures k < |MovesBelow(s, m)| && MovesBelow(s, m)[k] == Transfer(i, j)
  {
    var p: nat :| p + 1 == m;
    var below := MovesBelow(s, p + 1);
    assert MovesBelow(s, m) == below;
    if i < p {
      k := MovesBelowComplete(s, p, i, j);
      MovesBelowKeeps(s, p, k);
    } else {
      var r := MovesFromComplete(s, i, |s.decks|, j);
      MovesBelowRow(s, p, r);
      k := |MovesBelow(s, p)| + r;
    }
  }

  /** The moves from the decks below p stay where they are when deck p's moves are appended. */
  lemma MovesBelowKeeps(s: GameState, p: nat, k: nat)
    requires p < |s.decks| && k < |MovesBelow(s, p)|
    ensures k < |MovesBelow(s, p + 1)| && MovesBelow(s, p + 1)[k] == MovesBelow(s, p)[k]
  {
    var row := if IsDeckEmpty(s, p) then [] else MovesFrom(s, p, |s.decks|);
    assert MovesBelow(s, p + 1) == MovesBelow(s, p) + row;
    AppendLeft(MovesBelow(s, p), row, k);
  }

  /** The moves from deck p follow the moves from the decks below it. */
  lemma MovesBelowRow(s: GameState, p: nat, r: nat)
    requires p < |s.decks| && !IsDeckEmpty(s, p) && r < |MovesFrom(s, p, |s.decks|)|
    ensures |MovesBelow(s, p)| + r < |MovesBelow(s, p + 1)|
    ensures MovesBelow(s, p + 1)[|MovesBelow(s, p)| + r] == MovesFrom(s, p, |s.decks|)[r]
  {
    assert MovesBelow(s, p + 1) == MovesBelow(s, p) + MovesFrom(s, p, |s.decks|);
    AppendRight(MovesBelow(s, p), MovesFrom(s, p, |s.decks|), r);
  }

  /** Two lists of legal moves joined are legal. */
  lemma AllLegalAppend(s: GameState, a: seq<Transfer>, b: seq<Transfer>)
    requires AllLegal(s, a) && AllLegal(s, b)
    ensures AllLegal(s, a + b)
  {
    forall k | 0 <= k < |a + b|
      ensures LegalMove(s, (a + b)[k].source, (a + b)[k].target)
    {
      if k < |a| {
        AppendLeft(a, b, k);
      } else {
        AppendRight(a, b, k - |a|);
      }
    }
  }

  /** One more target keeps the inner loop's list legal. */
  lemma MovesFromLegalStep(s: GameState, i: nat, p: nat)
    requires i < |s.decks| && p < |s.decks| && !IsDeckEmpty(s, i)
    requires AllLegal(s, MovesFrom(s, i, p))
    ensures AllLegal(s, MovesFrom(s, i, p + 1))
  {
    var step := if LegalMove(s, i, p) then [Transfer(i, p)] else [];
    MovesFromNext(s, i, p);
    AllLegalAppend(s, MovesFrom(s, i, p), step);
  }

  /** Every move the inner loop lists is legal. */
  lemma {:induction false} MovesFromLegal(s: GameState, i: nat, m: nat)
    requires i < |s.decks| && m <= |s.decks| && !IsDeckEmpty(s, i)
    ensures AllLegal(s, MovesFrom(s, i, m))
  {
    if m > 0 {
      var p: nat :| p + 1 == m;
      MovesFromLegal(s, i, p);
      MovesFromLegalStep(s, i, p);
    }
  }

  /** One more source deck keeps the outer loop's list legal. */
  lemma MovesBelowLegalStep(s: GameState, p: nat)
    requires p < |s.decks| && AllLegal(s, MovesBelow(s, p))
    ensures AllLegal(s, MovesBelow(s, p + 1))
  {
    if !IsDeckEmpty(s, p) {
      var row := MovesFrom(s, p, |s.decks|);
      MovesFromLegal(s, p, |s.decks|);
      assert MovesBelow(s, p + 1) == MovesBelow(s, p) + row;
      AllLegalAppend(s, MovesBelow(s, p), row);
    }
  }

  /** Every move the outer loop lists is legal. */
  lemma {:induction false} MovesBelowLegal(s: GameState, m: nat)
    requires m <= |s.decks|
    ensures AllLegal(s, MovesBelow(s, m))
  {
    if m > 0 {
      var p: nat :| p + 1 == m;
      MovesBelowLegal(s, p);
      MovesBelowLegalStep(s, p);
    }
  }

  /** The states reached by playing the legal moves of `ts`, in order. */
  function Play(s: GameState, ts: seq<Transfer>): seq<GameState>
    requires ValidConfig(s.cfg)
  {
    if ts == [] then []
    else
      var t := ts[|ts| - 1];
      Play(s, ts[..|ts| - 1]) + (if LegalMove(s, t.source, t.target) then [Successor(s, t.source, t.target)] else [])
  }

  /** Playing one more move appends its state when it is legal. */
  lemma PlaySnoc(s: GameState, ts: seq<Transfer>, t: Transfer)
    requires ValidConfig(s.cfg)
    ensures Play(s, ts + [t]) == Play(s, ts) + (if LegalMove(s, t.source, t.target) then [Successor(s, t.source, t.target)] else [])
  {
    assert (ts + [t])[..|ts|] == ts;
  }

  /** When every move is legal, the k-th state is the k-th move played. */
  lemma {:induction false} PlayAt(s: GameState, ts: seq<Transfer>, k: nat)
    requires ValidConfig(s.cfg) && AllLegal(s, ts)
    requires k < |ts|
    ensures |Play(s, ts)| == |ts|
    ensures Play(s, ts)[k] == Successor(s, ts[k].source, ts[k].target)
  {
    var init, last := ts[..|ts| - 1], ts[|ts| - 1];
    assert AllLegal(s, init);
    assert Play(s, ts) == Play(s, init) + [Successor(s, last.source, last.target)];
    if k < |ts| - 1 {
      PlayAt(s, init, k);
      assert init[k] == ts[k];
      AppendLeft(Play(s, init), [Successor(s, last.source, last.target)], k);
    } else if k > 0 {
      PlayAt(s, init, k - 1);
    }
  }

  /** Playing two lists of moves in turn is playing their concatenation. */
  lemma {:induction false} PlayAppend(s: GameState, xs: seq<Transfer>, ys: seq<Transfer>)
    requires ValidConfig(s.cfg)
    ensures Play(s, xs + ys) == Play(s, xs) + Play(s, ys)
  {
    if ys == [] {
      assert xs + ys == xs;
    } else {
      var init, last := ys[..|ys| - 1], ys[|ys| - 1];
      PlayAppend(s, xs, init);
      assert xs + ys == (xs + init) + [last];
      PlaySnoc(s, xs + init, last);
      PlaySnoc(s, init, last);
    }
  }

  /** The successors of a state, in the order SpawnNewStates builds them. */
  function Successors(s: GameState): seq<GameState>
    requires ValidConfig(s.cfg)
  {
    Play(s, MovesBelow(s, |s.decks|))
  }

  /**
   * The successors are exactly the states built from the legal moves: the
   * top card of a non-empty deck i onto a different deck j whose top card
   * is strictly greater, or which is empty.
   */
  lemma SuccessorsAreLegalMoves(s: GameState)
    requires ValidConfig(s.cfg)
    ensures forall c :: c in Successors(s) ==> exists i: nat, j: nat :: LegalMove(s, i, j) && c == Successor(s, i, j)
    ensures forall i: nat, j: nat :: LegalMove(s, i, j) ==> Successor(s, i, j) in Successors(s)
  {
    var ts := MovesBelow(s, |s.decks|);
    MovesBelowLegal(s, |s.decks|);
    forall c | c in Successors(s)
      ensures exists i: nat, j: nat :: LegalMove(s, i, j) && c == Successor(s, i, j)
    {
      var k :| 0 <= k < |Successors(s)| && Successors(s)[k] == c;
      PlayAt(s, ts, 0);
      PlayAt(s, ts, k);
      assert LegalMove(s, ts[k].source, ts[k].target);
    }
    forall i: nat, j: nat | LegalMove(s, i, j)
      ensures Successor(s, i, j) in Successors(s)
    {
      var k := MovesBelowComplete(s, |s.decks|, i, j);
      PlayAt(s, ts, k);
    }
  }

  /**
   * Every successor is a state of the same game, and none is final: the
   * final flag looks at the decks before the collapse, and the destination
   * deck of the move always holds the moved card.
   */
  lemma SuccessorsNotFinal(cfg: Config, s: GameState)
    requires WellFormed(cfg, s)
    ensures forall c :: c in Successors(s) ==> WellFormed(cfg, c) && !c.final
  {
    SuccessorsAreLegalMoves(s);
    forall c | c in Successors(s)
      ensures WellFormed(cfg, c) && !c.final
    {
      var i: nat, j: nat :| LegalMove(s, i, j) && c == Successor(s, i, j);
      var moved := Move(s.decks, i, j);
      MakeStateDecks(cfg, moved);
      assert moved[j] != [];
    }
  }

  /**
   * The collision of `OverfullKeysCollide` happens during a search. In the
   * source's configuration of bottom rank 14, with 3 decks of one card each,
   * the layout [[7], [9], [8]] reaches [[], [9], [8, 7]] in one move and
   * [[], [9, 8], [7]] in two. The two states differ but share a key, so
   * whichever of them is spawned second is never pushed (main.cpp:232-233).
   */
  lemma ReachableStatesCollide()
    ensures var s0 := MakeState(Config(3, 1, 14), [[7], [9], [8]]);
      LegalMove(s0, 0, 2) && LegalMove(s0, 2, 1) &&
      var a := Successor(s0, 0, 2);
      var s1 := Successor(s0, 2, 1);
      LegalMove(s1, 0, 2) && var b := Successor(s1, 0, 2);
      a.decks == [[], [9], [8, 7]] && b.decks == [[], [9, 8], [7]] && a.key == b.key
  {
    ExampleDirect();
    ExampleDetour();
    OverfullKeysCollide();
  }

  /** The start of `ReachableStatesCollide` and its direct move from deck 0 onto deck 2. */
  lemma ExampleDirect()
    ensures var s0 := MakeState(Config(3, 1, 14), [[7], [9], [8]]);
      s0.cfg == Config(3, 1, 14) && s0.decks == [[7], [9], [8]] &&
      Successor(s0, 0, 2).decks == [[], [9], [8, 7]] &&
      Successor(s0, 0, 2).key == Key(1, [[], [9], [8, 7]])
  {
    var cfg := Config(3, 1, 14);
    var d0: seq<Deck> := [[7], [9], [8]];
    ExampleMoves();
    MakeStateKeepsDecks(cfg, d0);
    SuccessorDecks(MakeState(cfg, d0), 0, 2, [[], [9], [8, 7]]);
  }

  /** The detour of `ReachableStatesCollide`: deck 2 onto deck 1, then deck 0 onto deck 2. */
  lemma ExampleDetour()
    ensures var s0 := MakeState(Config(3, 1, 14), [[7], [9], [8]]);
      s0.cfg == Config(3, 1, 14) && s0.decks == [[7], [9], [8]] &&
      var s1 := Successor(s0, 2, 1);
      s1.decks == [[7], [9, 8], []] &&
      Successor(s1, 0, 2).decks == [[], [9, 8], [7]] &&
      Successor(s1, 0, 2).key == Key(1, [[], [9, 8], [7]])
  {
    var cfg := Config(3, 1, 14);
    var d0: seq<Deck> := [[7], [9], [8]];
    ExampleMoves();
    MakeStateKeepsDecks(cfg, d0);
    var s0 := MakeState(cfg, d0);
    SuccessorDecks(s0, 2, 1, [[7], [9, 8], []]);
    SuccessorDecks(Successor(s0, 2, 1), 0, 2, [[], [9, 8], [7]]);
  }

  /** The three moves of `ReachableStatesCollide`, on the decks alone. */
  lemma ExampleMoves()
    ensures Move([[7], [9], [8]], 0, 2) == [[], [9], [8, 7]]
    ensures Move([[7], [9], [8]], 2, 1) == [[7], [9, 8], []]
    ensures Move([[7], [9, 8], []], 0, 2) == [[], [9, 8], [7]]
  {
    var a := Move([[7], [9], [8]], 0, 2);
    assert |a[0]| == 0 && a[1] == [9] && a[2] == [8, 7];
    var b := Move([[7], [9], [8]], 2, 1);
    assert b[0] == [7] && |b[2]| == 0 && b[1] == [9, 8];
    var c := Move([[7], [9, 8], []], 0, 2);
    assert |c[0]| == 0 && c[1] == [9, 8] && c[2] == [7];
  }

  /** A move whose resulting decks are known and none of which can be collapsed. */
  lemma SuccessorDecks(s: GameState, i: nat, j: nat, after: seq<Deck>)
    requires ValidConfig(s.cfg) && i < |s.decks| && j < |s.decks| && i != j && s.decks[i] != []
    requires Move(s.decks, i, j) == after
    requires forall k :: 0 <= k < |after| ==> !CanCollapse(s.cfg, after[k])
    ensures Successor(s, i, j).decks == after && Successor(s, i, j).key == Key(s.cfg.cardsInDeck, after)
  {
    MakeStateKeepsDecks(s.cfg, after);
  }

  // ---------------------------------------------------------------------
  // The visited table and the frontier
  // ---------------------------------------------------------------------

  /** One candidate (main.cpp:230-237): pushed with status 0 unless its key is already in the table. */
  function Admit(t: Table, c: GameState): Table
  {
    if c.key in t.visited then t else Table(t.visited[c.key := Enqueued], t.frontier + [c])
  }

  /** The candidates in order (the loops of main.cpp:214-240 applied to the table). */
  function AdmitAll(t: Table, cs: seq<GameState>): Table
  {
    if cs == [] then t else Admit(AdmitAll(t, cs[..|cs| - 1]), cs[|cs| - 1])
  }

  /**
   * Admitting candidates never touches an entry already in the table, only
   * appends to the frontier, marks every new key enqueued, and leaves every
   * candidate's key in the table.
   */
  lemma {:induction false} AdmitAllKeeps(t: Table, cs: seq<GameState>)
    ensures var r := AdmitAll(t, cs);
      |t.frontier| <= |r.frontier| && r.frontier[..|t.frontier|] == t.frontier &&
      (forall k :: k in t.visited ==> k in r.visited && r.visited[k] == t.visited[k]) &&
      (forall k :: k in r.visited && k !in t.visited ==> r.visited[k] == Enqueued) &&
      (forall c :: c in cs ==> c.key in r.visited)
  {
    if cs != [] {
      var init := cs[..|cs| - 1];
      AdmitAllKeeps(t, init);
      assert forall x :: x in init ==> x in cs;
    }
  }

  /**
   * The states pushed while admitting candidates were candidates whose keys
   * were absent from the table, are now in it, and are pairwise distinct.
   */
  lemma {:induction false} AdmitAllPushes(t: Table, cs: seq<GameState>)
    ensures var r := AdmitAll(t, cs);
      (forall p :: |t.frontier| <= p < |r.frontier| ==>
        r.frontier[p] in cs && r.frontier[p].key !in t.visited && r.frontier[p].key in r.visited) &&
      (forall p, q :: |t.frontier| <= p < q < |r.frontier| ==> r.frontier[p].key != r.frontier[q].key)
  {
    if cs != [] {
      var init := cs[..|cs| - 1];
      AdmitAllPushes(t, init);
      AdmitAllKeeps(t, init);
      assert forall x :: x in init ==> x in cs;
    }
  }

  lemma {:induction false} AdmitAllAppend(t: Table, xs: seq<GameState>, ys: seq<GameState>)
    ensures AdmitAll(AdmitAll(t, xs), ys) == AdmitAll(t, xs + ys)
  {
    if ys != [] {
      var init := ys[..|ys| - 1];
      AdmitAllAppend(t, xs, init);
      assert (xs + ys)[..|xs + ys| - 1] == xs + init;
    } else {
      assert xs + ys == xs;
    }
  }

  /** The expansion after the key is marked (main.cpp:213-243): admit the successors, then mark the key again. */
  function Spawn(t: Table, s: GameState): Table
    requires ValidConfig(s.cfg)
  {
    var r := AdmitAll(t, Successors(s));
    Table(r.visited[s.key := Expanded], r.frontier)
  }

  /** Admitting one more candidate. */
  lemma AdmitAllSnoc(t: Table, cs: seq<GameState>, c: GameState)
    ensures AdmitAll(t, cs + [c]) == Admit(AdmitAll(t, cs), c)
  {
    assert (cs + [c])[..|cs|] == cs;
  }

  /** The table after the inner loop of main.cpp:215-239 has tried decks 0 to m - 1 as targets for deck i. */
  function Cols(t: Table, s: GameState, i: nat, m: nat): Table
    requires ValidConfig(s.cfg)
    requires i < |s.decks| && !IsDeckEmpty(s, i) && m <= |s.decks|
  {
    if m == 0 then t
    else if LegalMove(s, i, m - 1) then Admit(Cols(t, s, i, m - 1), Successor(s, i, m - 1))
    else Cols(t, s, i, m - 1)
  }

  /** The table after the outer loop of main.cpp:214-240 has run over decks 0 to m - 1. */
  function Rows(t: Table, s: GameState, m: nat): Table
    requires ValidConfig(s.cfg) && m <= |s.decks|
  {
    if m == 0 then t
    else if IsDeckEmpty(s, m - 1) then Rows(t, s, m - 1)
    else Cols(Rows(t, s, m - 1), s, m - 1, |s.decks|)
  }

  /** The successors from source decks 0 to m - 1, row after row. */
  function SuccessorsBelow(s: GameState, m: nat): seq<GameState>
    requires ValidConfig(s.cfg) && m <= |s.decks|
  {
    if m == 0 then []
    else if IsDeckEmpty(s, m - 1) then SuccessorsBelow(s, m - 1)
    else SuccessorsBelow(s, m - 1) + Play(s, MovesFrom(s, m - 1, |s.decks|))
  }

  /** One target of the inner loop: the move onto deck k is admitted exactly when it is legal. */
  lemma ColsStep(t: Table, s: GameState, i: nat, k: nat)
    requires ValidConfig(s.cfg)
    requires i < |s.decks| && !IsDeckEmpty(s, i) && k < |s.decks|
    requires Cols(t, s, i, k) == AdmitAll(t, Play(s, MovesFrom(s, i, k)))
    ensures Cols(t, s, i, k + 1) == AdmitAll(t, Play(s, MovesFrom(s, i, k + 1)))
  {
    var done := MovesFrom(s, i, k);
    if LegalMove(s, i, k) {
      assert MovesFrom(s, i, k + 1) == done + [Transfer(i, k)];
      PlaySnoc(s, done, Transfer(i, k));
      AdmitAllSnoc(t, Play(s, done), Successor(s, i, k));
    } else {
      assert MovesFrom(s, i, k + 1) == done + [] == done;
    }
  }

  /** Target by target, the inner loop admits the successors of the moves from deck i in order. */
  lemma {:induction false} ColsAdmitAll(t: Table, s: GameState, i: nat, m: nat)
    requires ValidConfig(s.cfg)
    requires i < |s.decks| && !IsDeckEmpty(s, i) && m <= |s.decks|
    ensures Cols(t, s, i, m) == AdmitAll(t, Play(s, MovesFrom(s, i, m)))
  {
    if m > 0 {
      var k: nat :| k + 1 == m;
      ColsAdmitAll(t, s, i, k);
      ColsStep(t, s, i, k);
    }
  }

  /** One more row: the successors of the moves from deck k follow those of the decks before it. */
  lemma PlayMovesStep(s: GameState, k: nat)
    requires ValidConfig(s.cfg) && k < |s.decks|
    requires Play(s, MovesBelow(s, k)) == SuccessorsBelow(s, k)
    ensures Play(s, MovesBelow(s, k + 1)) == SuccessorsBelow(s, k + 1)
  {
    var done := MovesBelow(s, k);
    if IsDeckEmpty(s, k) {
      assert MovesBelow(s, k + 1) == done + [] == done;
    } else {
      var row := MovesFrom(s, k, |s.decks|);
      assert MovesBelow(s, k + 1) == done + row;
      PlayAppend(s, done, row);
    }
  }

  /** The rows' successors are the successors of the listed moves. */
  lemma {:induction false} PlayMovesBelow(s: GameState, m: nat)
    requires ValidConfig(s.cfg) && m <= |s.decks|
    ensures Play(s, MovesBelow(s, m)) == SuccessorsBelow(s, m)
  {
    if m > 0 {
      var k: nat :| k + 1 == m;
      PlayMovesBelow(s, k);
      PlayMovesStep(s, k);
    }
  }

  /** One more row of the outer loop: the moves from deck k are admitted after those of the decks before it. */
  lemma RowsStep(t: Table, s: GameState, k: nat)
    requires ValidConfig(s.cfg) && k < |s.decks|
    requires Rows(t, s, k) == AdmitAll(t, SuccessorsBelow(s, k))
    ensures Rows(t, s, k + 1) == AdmitAll(t, SuccessorsBelow(s, k + 1))
  {
    if !IsDeckEmpty(s, k) {
      ColsAdmitAll(Rows(t, s, k), s, k, |s.decks|);
      AdmitAllAppend(t, SuccessorsBelow(s, k), Play(s, MovesFrom(s, k, |s.decks|)));
    }
  }

  /** Row by row, the outer loop admits the successors in order. */
  lemma {:induction false} RowsAdmitAll(t: Table, s: GameState, m: nat)
    requires ValidConfig(s.cfg) && m <= |s.decks|
    ensures Rows(t, s, m) == AdmitAll(t, SuccessorsBelow(s, m))
  {
    if m > 0 {
      var k: nat :| k + 1 == m;
      RowsAdmitAll(t, s, k);
      RowsStep(t, s, k);
    }
  }

  /** A popped state that is expanded: its key is marked 1 (main.cpp:207), then it is spawned from. */
  function Expand(visited: map<string, int>, rest: seq<GameState>, s: GameState): Table
    requires ValidConfig(s.cfg)
  {
    Spawn(Table(visited[s.key := Expanded], rest), s)
  }

  /** The frontier without the element at `index`. */
  function Without(frontier: seq<GameState>, index: nat): (r: seq<GameState>)
    requires index < |frontier|
    ensures |r| == |frontier| - 1
    ensures multiset(r) + multiset{frontier[index]} == multiset(frontier)
  {
    assert frontier == frontier[..index] + [frontier[index]] + frontier[index + 1..];
    frontier[..index] + frontier[index + 1..]
  }

  /** Statuses never decrease and no entry disappears. */
  predicate Monotone(before: map<string, int>, after: map<string, int>)
  {
    forall k :: k in before ==> k in after && before[k] <= after[k]
  }

  /**
   * The class invariant: every frontier state belongs to the game and has
   * its key in the table, every status is 0 or 1, and only the initial state
   * can be final.
   */
  predicate Consistent(cfg: Config, seed: GameState, t: Table)
  {
    ValidConfig(cfg) &&
    (forall s :: s in t.frontier ==> WellFormed(cfg, s) && s.key in t.visited) &&
    (forall k :: k in t.visited ==> t.visited[k] == Enqueued || t.visited[k] == Expanded) &&
    (forall s :: s in t.frontier && s.final ==> s == seed)
  }

  /** Frontier keys are pairwise distinct and all still enqueued. */
  predicate Fresh(t: Table)
  {
    (forall p :: 0 <= p < |t.frontier| ==> t.frontier[p].key in t.visited && t.visited[t.frontier[p].key] == Enqueued) &&
    (forall p, q :: 0 <= p < q < |t.frontier| ==> t.frontier[p].key != t.frontier[q].key)
  }

  lemma RemoveKeepsConsistent(cfg: Config, seed: GameState, t: Table, index: nat)
    requires index < |t.frontier| && Consistent(cfg, seed, t)
    ensures Consistent(cfg, seed, Table(t.visited, Without(t.frontier, index)))
  {
    var rest := Without(t.frontier, index);
    forall s | s in rest
      ensures s in t.frontier
    {
      assert s in multiset(rest);
    }
  }

  /** Expanding a popped state keeps the invariant; the table only grows and the state's key ends as expanded. */
  lemma ExpandKeepsConsistent(cfg: Config, seed: GameState, visited: map<string, int>, rest: seq<GameState>, s: GameState)
    requires Consistent(cfg, seed, Table(visited, rest)) && WellFormed(cfg, s)
    ensures Consistent(cfg, seed, Expand(visited, rest, s))
    ensures Monotone(visited, Expand(visited, rest, s).visited)
    ensures s.key in Expand(visited, rest, s).visited && Expand(visited, rest, s).visited[s.key] == Expanded
  {
    var t := Table(visited[s.key := Expanded], rest);
    var r := AdmitAll(t, Successors(s));
    var e := Expand(visited, rest, s);
    AdmitAllKeeps(t, Successors(s));
    AdmitAllPushes(t, Successors(s));
    SuccessorsNotFinal(cfg, s);
    forall x | x in e.frontier
      ensures WellFormed(cfg, x) && x.key in e.visited && (x.final ==> x == seed)
    {
      var p :| 0 <= p < |e.frontier| && e.frontier[p] == x;
      if p < |rest| {
        assert x == r.frontier[..|rest|][p];
      }
    }
  }

  /** Expanding a popped state whose key no remaining frontier state shares keeps the frontier keys fresh. */
  lemma ExpandKeepsFresh(visited: map<string, int>, rest: seq<GameState>, s: GameState)
    requires ValidConfig(s.cfg)
    requires Fresh(Table(visited, rest))
    requires forall p :: 0 <= p < |rest| ==> rest[p].key != s.key
    ensures Fresh(Expand(visited, rest, s))
  {
    var t := Table(visited[s.key := Expanded], rest);
    var r := AdmitAll(t, Successors(s));
    var e := Expand(visited, rest, s);
    AdmitAllKeeps(t, Successors(s));
    AdmitAllPushes(t, Successors(s));
    forall p | 0 <= p < |e.frontier|
      ensures e.frontier[p].key in e.visited && e.visited[e.frontier[p].key] == Enqueued
    {
      if p < |rest| {
        assert e.frontier[p] == r.frontier[..|rest|][p];
      }
    }
    forall p, q | 0 <= p < q < |e.frontier|
      ensures e.frontier[p].key != e.frontier[q].key
    {
      if q < |rest| {
        assert e.frontier[p] == r.frontier[..|rest|][p] && e.frontier[q] == r.frontier[..|rest|][q];
      } else if p < |rest| {
        assert e.frontier[p] == r.frontier[..|rest|][p];
      }
    }
  }

  /** Removing one frontier state keeps the rest fresh, and no remaining state shares its key. */
  lemma RemoveKeepsFresh(t: Table, index: nat)
    requires index < |t.frontier| && Fresh(t)
    ensures Fresh(Table(t.visited, Without(t.frontier, index)))
    ensures forall p :: 0 <= p < |Without(t.frontier, index)| ==> Without(t.frontier, index)[p].key != t.frontier[index].key
  {
    var rest := Without(t.frontier, index);
    assert forall p :: 0 <= p < |rest| ==> rest[p] == (if p < index then t.frontier[p] else t.frontier[p + 1]);
  }

  /** The first index of a maximal priority: the frontier's `top()` (main.cpp:191), ties going to the earliest state. */
  function BestIndex(states: seq<GameState>): (index: nat)
    requires states != []
    ensures index < |states|
    ensures forall p :: 0 <= p < |states| ==> Priority(states[p]) <= Priority(states[index])
    ensures forall p :: 0 <= p < index ==> Priority(states[p]) < Priority(states[index])
  {
    if |states| == 1 then 0
    else
      var init := states[..|states| - 1];
      var k := BestIndex(init);
      assert forall p :: 0 <= p < |init| ==> init[p] == states[p];
      if Priority(states[k]) < Priority(states[|states| - 1]) then |states| - 1 else k
  }

  /** A maximal priority with no equal one before it can only be at `BestIndex`. */
  lemma BestIndexUnique(states: seq<GameState>, index: nat)
    requires index < |states|
    requires forall p :: 0 <= p < |states| ==> Priority(states[p]) <= Priority(states[index])
    requires forall p :: 0 <= p < index ==> Priority(states[p]) < Priority(states[index])
    ensures index == BestIndex(states)
  {
    var best := BestIndex(states);
    assert Priority(states[best]) <= Priority(states[index]) && Priority(states[index]) <= Priority(states[best]);
  }

  /** The loop that picks the frontier's best state. */
  method ArgMaxPriority(states: seq<GameState>) returns (index: nat)
    requires states != []
    ensures index == BestIndex(states)
  {
    index := 0;
    var best := GetPriority(states[0]);
    for p := 1 to |states|
      invariant index < p
      invariant best == Priority(states[index])
      invariant forall q :: 0 <= q < p ==> Priority(states[q]) <= best
      invariant forall q :: 0 <= q < index ==> Priority(states[q]) < best
    {
      var priority := GetPriority(states[p]);
      if best < priority {
        index, best := p, priority;
      }
    }
    BestIndexUnique(states, index);
  }

  /** What one call of `Step` reports and the table it leaves. */
  datatype StepResult = StepResult(done: bool, table: Table)

  /**
   * One call of `Step` on the table (main.cpp:190-211): pop the best state;
   * stop if it is final; drop it if its key is already expanded; otherwise
   * expand it. The table invariant is kept and no status goes down.
   */
  function StepOf(cfg: Config, seed: GameState, t: Table): (r: StepResult)
    requires Consistent(cfg, seed, t) && t.frontier != []
    ensures Consistent(cfg, seed, r.table) && Monotone(t.visited, r.table.visited)
    ensures r.done == t.frontier[BestIndex(t.frontier)].final
    ensures |r.table.frontier| >= |t.frontier| - 1
  {
    var index := BestIndex(t.frontier);
    var s := t.frontier[index];
    var rest := Without(t.frontier, index);
    RemoveKeepsConsistent(cfg, seed, t, index);
    if s.final then StepResult(true, Table(t.visited, rest))
    else if s.key in t.visited && t.visited[s.key] == Expanded then StepResult(false, Table(t.visited, rest))
    else
      ExpandKeepsConsistent(cfg, seed, t.visited, rest, s);
      AdmitAllKeeps(Table(t.visited[s.key := Expanded], rest), Successors(s));
      StepResult(false, Expand(t.visited, rest, s))
  }

  /** What `Solve` reports and the table it leaves. */
  datatype RunResult = RunResult(outcome: Outcome, table: Table)

  /**
   * `Solve`'s loop (main.cpp:181-184) with at most n more steps: step until
   * the frontier is empty, a final state is popped, or the bound is used up.
   */
  function Run(cfg: Config, seed: GameState, t: Table, n: nat): RunResult
    requires Consistent(cfg, seed, t)
    decreases n
  {
    if t.frontier == [] then RunResult(Unsolvable, t)
    else if n == 0 then RunResult(StepLimit, t)
    else
      var step := StepOf(cfg, seed, t);
      if step.done then RunResult(Solvable, step.table) else Run(cfg, seed, step.table, n - 1)
  }

  /**
   * How a run ends: the table invariant holds and no status went down; the
   * search is unsolvable only with an empty frontier, stops at the bound
   * only with a non-empty one, and is solvable only when a step was taken
   * and the initial state is final.
   */
  lemma {:induction false} RunOutcome(cfg: Config, seed: GameState, t: Table, n: nat)
    requires Consistent(cfg, seed, t)
    ensures var r := Run(cfg, seed, t, n);
      Consistent(cfg, seed, r.table) && Monotone(t.visited, r.table.visited) &&
      (r.outcome == Unsolvable ==> r.table.frontier == []) &&
      (r.outcome == StepLimit ==> r.table.frontier != []) &&
      (r.outcome == Solvable ==> n > 0 && seed.final)
    decreases n
  {
    if t.frontier != [] && n > 0 {
      var step := StepOf(cfg, seed, t);
      var k: nat :| k + 1 == n;
      RunUnfold(cfg, seed, t, k);
      if !step.done {
        RunOutcome(cfg, seed, step.table, k);
      }
    }
  }

  /** With steps left, a step that pops a final state ends the search, and any other step leaves one step fewer. */
  lemma RunUnfold(cfg: Config, seed: GameState, t: Table, k: nat)
    requires Consistent(cfg, seed, t) && t.frontier != []
    ensures var step := StepOf(cfg, seed, t);
      Run(cfg, seed, t, k + 1) == if step.done then RunResult(Solvable, step.table) else Run(cfg, seed, step.table, k)
  {
  }

  /** The run from `t` with `n` steps left ends with `r`. */
  ghost predicate Yields(cfg: Config, seed: GameState, t: Table, n: nat, r: RunResult)
    requires Consistent(cfg, seed, t)
  {
    Run(cfg, seed, t, n) == r
  }

  /** A step that pops a final state is where the run ends. */
  lemma YieldsDone(cfg: Config, seed: GameState, t: Table, n: nat, r: RunResult)
    requires Consistent(cfg, seed, t) && t.frontier != [] && n > 0 && Yields(cfg, seed, t, n, r)
    requires StepOf(cfg, seed, t).done
    ensures r == RunResult(Solvable, StepOf(cfg, seed, t).table)
  {
    var k: nat :| k + 1 == n;
    RunUnfold(cfg, seed, t, k);
  }

  /** Any other step leaves the same run with one step fewer. */
  lemma YieldsStep(cfg: Config, seed: GameState, t: Table, n: nat, r: RunResult)
    requires Consistent(cfg, seed, t) && t.frontier != [] && n > 0 && Yields(cfg, seed, t, n, r)
    requires !StepOf(cfg, seed, t).done
    ensures Consistent(cfg, seed, StepOf(cfg, seed, t).table)
    ensures forall m: nat :: m + 1 == n ==> Yields(cfg, seed, StepOf(cfg, seed, t).table, m, r)
  {
    forall m: nat | m + 1 == n
      ensures Yields(cfg, seed, StepOf(cfg, seed, t).table, m, r)
    {
      RunUnfold(cfg, seed, t, m);
    }
  }

  /** One more step in the bound changes nothing once the search has ended within it. */
  lemma {:induction false} RunBoundOnlyTruncates(cfg: Config, seed: GameState, t: Table, n: nat)
    requires Consistent(cfg, seed, t)
    ensures Run(cfg, seed, t, n).outcome != StepLimit ==> Run(cfg, seed, t, n + 1) == Run(cfg, seed, t, n)
    decreases n
  {
    if t.frontier != [] && n > 0 {
      var step := StepOf(cfg, seed, t);
      var k: nat :| k + 1 == n;
      RunUnfold(cfg, seed, t, k);
      RunUnfold(cfg, seed, t, n);
      if !step.done {
        RunBoundOnlyTruncates(cfg, seed, step.table, k);
      }
    }
  }

  class SolitaireGame {
    const cfg: Config
    /** The state built from the initial layout. */
    ghost const seed: GameState
    var visited: map<string, int>
    var frontier: seq<GameState>

    ghost predicate Valid()
      reads this
    {
      Consistent(cfg, seed, Table(visited, frontier))
    }

    ghost predicate KeysFresh()
      reads this
    {
      Fresh(Table(visited, frontier))
    }

    /** The constructor with the non-I/O tail of `ReadDecks` (main.cpp:155-176). */
    constructor (cfg: Config, init: seq<Deck>)
      requires ValidConfig(cfg) && |init| == cfg.numberOfDecks
      ensures this.cfg == cfg && seed == MakeState(cfg, init)
      ensures visited == map[seed.key := Enqueued] && frontier == [seed]
      ensures Valid() && KeysFresh()
    {
      var initState := NewState(cfg, init);
      MakeStateDecks(cfg, init);
      this.cfg := cfg;
      seed := initState;
      visited := map[initState.key := Enqueued];
      frontier := [initState];
    }

    /** Pops a state of maximal priority. */
    method PopBest() returns (best: GameState, index: nat)
      requires Valid() && frontier != []
      modifies this`frontier
      ensures index == BestIndex(old(frontier)) && best == old(frontier)[index]
      ensures forall s :: s in old(frontier) ==> Priority(s) <= Priority(best)
      ensures frontier == Without(old(frontier), index)
      ensures Valid()
      ensures old(KeysFresh()) ==> KeysFresh() && forall s :: s in frontier ==> s.key != best.key
    {
      index := ArgMaxPriority(frontier);
      best := frontier[index];
      RemoveKeepsConsistent(cfg, seed, Table(visited, frontier), index);
      if KeysFresh() {
        RemoveKeepsFresh(Table(visited, frontier), index);
      }
      frontier := Without(frontier, index);
    }

    /** The inner loop of `SpawnNewStates` (main.cpp:218-239): moves from the non-empty deck i. */
    method SpawnMovesFrom(s: GameState, i: nat)
      requires WellFormed(cfg, s) && i < |s.decks| && !IsDeckEmpty(s, i)
      modifies this`visited, this`frontier
      ensures Table(visited, frontier) == Cols(old(Table(visited, frontier)), s, i, |s.decks|)
    {
      ghost var start := Table(visited, frontier);
      var n := cfg.numberOfDecks;
      for j := 0 to n
        invariant Table(visited, frontier) == Cols(start, s, i, j)
      {
        if i == j {
          continue;
        }
        if GetTopCard(s, i) < GetTopCard(s, j) {
          var copy := s.decks;
          var movingCard := copy[i][|copy[i]| - 1];
          copy := copy[i := copy[i][..|copy[i]| - 1]];
          copy := copy[j := copy[j] + [movingCard]];
          assert copy == Move(s.decks, i, j);
          var newState := NewState(cfg, copy);
          var newHash := newState.key;
          if newHash in visited {
            continue;
          }
          frontier := frontier + [newState];
          visited := visited[newHash := Enqueued];
        }
      }
    }

    /** `SpawnNewStates`: every legal move in loop order, pushing keys not yet in the table. */
    method SpawnNewStates(s: GameState)
      requires WellFormed(cfg, s)
      modifies this`visited, this`frontier
      ensures Table(visited, frontier) == Spawn(old(Table(visited, frontier)), s)
    {
      ghost var start := Table(visited, frontier);
      var n := cfg.numberOfDecks;
      for i := 0 to n
        invariant Table(visited, frontier) == Rows(start, s, i)
      {
        if IsDeckEmpty(s, i) {
          continue;
        }
        SpawnMovesFrom(s, i);
      }
      RowsAdmitAll(start, s, n);
      PlayMovesBelow(s, n);
      visited := visited[s.key := Expanded];
    }

    /**
     * `Step`: pop a best state; stop if it is final; discard it if its key is
     * already expanded; otherwise mark its key expanded and spawn from it.
     */
    method Step() returns (done: bool, ghost popped: GameState, ghost index: nat)
      requires Valid() && frontier != []
      modifies this`visited, this`frontier
      ensures Valid()
      ensures StepOf(cfg, seed, old(Table(visited, frontier))) == StepResult(done, Table(visited, frontier))
      ensures index == BestIndex(old(frontier)) && popped == old(frontier)[index]
      ensures forall s :: s in old(frontier) ==> Priority(s) <= Priority(popped)
      ensures done == popped.final
      ensures done || (popped.key in old(visited) && old(visited)[popped.key] == Expanded) ==>
        visited == old(visited) && frontier == Without(old(frontier), index)
      ensures !done && !(popped.key in old(visited) && old(visited)[popped.key] == Expanded) ==>
        Table(visited, frontier) == Expand(old(visited), Without(old(frontier), index), popped)
      ensures Monotone(old(visited), visited)
      ensures old(KeysFresh()) ==> KeysFresh() && old(visited)[popped.key] == Enqueued
    {
      ghost var wasFresh := KeysFresh();
      var state, position := PopBest();
      index := position;
      popped := state;
      if state.final {
        return true, popped, index;
      }
      var curHash := state.key;
      if curHash in visited && visited[curHash] == Expanded {
        return false, popped, index;
      }
      ghost var rest := frontier;
      ExpandKeepsConsistent(cfg, seed, visited, rest, state);
      if wasFresh {
        ExpandKeepsFresh(visited, rest, state);
      }
      visited := visited[curHash := Expanded];
      SpawnNewStates(state);
      done := false;
    }

    /** `Solve` (main.cpp:178-187), with at most `maxSteps` steps. */
    method Solve(maxSteps: nat) returns (outcome: Outcome)
      requires Valid()
      modifies this`visited, this`frontier
      ensures Valid()
      ensures Monotone(old(visited), visited)
      ensures old(KeysFresh()) ==> KeysFresh()
      ensures outcome == Solvable ==> seed.final && maxSteps > 0
      ensures outcome == Unsolvable ==> frontier == []
      ensures outcome == StepLimit ==> frontier != []
      ensures old(frontier) == [seed] && seed.final && maxSteps > 0 ==> outcome == Solvable
      ensures Run(cfg, seed, old(Table(visited, frontier)), maxSteps) == RunResult(outcome, Table(visited, frontier))
    {
      ghost var expected := Run(cfg, seed, Table(visited, frontier), maxSteps);
      ghost var budget: nat := maxSteps;
      var steps := 0;
      while frontier != []
        invariant Valid() && steps <= maxSteps && budget == maxSteps - steps
        invariant Yields(cfg, seed, Table(visited, frontier), budget, expected)
        invariant Monotone(old(visited), visited)
        invariant old(KeysFresh()) ==> KeysFresh()
        invariant steps == 0 ==> frontier == old(frontier)
        invariant old(frontier) == [seed] && seed.final ==> steps == 0
        decreases maxSteps - steps
      {
        if steps == maxSteps {
          assert budget == 0;
          return StepLimit;
        }
        ghost var before := Table(visited, frontier);
        var done, popped, index := Step();
        if done {
          YieldsDone(cfg, seed, before, budget, expected);
          return Solvable;
        }
        YieldsStep(cfg, seed, before, budget, expected);
        budget := budget - 1;
        steps := steps + 1;
      }
      return Unsolvable;
    }
  }

  /**
   * `main` without its output: build the game from the layout and solve it.
   * As written, the answer is "solvable" exactly when every deck of the
   * layout is empty, since only the initial state can be final.
   */
  method SolveLayout(cfg: Config, init: seq<Deck>, maxSteps: nat) returns (outcome: Outcome)
    requires ValidConfig(cfg) && |init| == cfg.numberOfDecks
    ensures outcome == Solvable <==> maxSteps > 0 && AllEmpty(init)
  {
    var game := new SolitaireGame(cfg, init);
    outcome := game.Solve(maxSteps);
  }
}
