# Card-solitaire solvability search, modelled in Dafny

This project models `main.cpp`, a best-first search that decides whether a
solitaire layout can be cleared. The layout is `number_of_decks` decks of
integer card ranks. A move takes the top card of a non-empty deck and puts it
on another deck whose top card is strictly greater, or on an empty deck. A
deck that holds a complete descending run is removed ("collapsed"). It must
hold `cards_in_deck` cards, the bottom one `bottom_rank`, each card above one
lower.

The project has three modules:

- `StateKey` (`state_key.dfy`) is the text key of a state. Each slot holds
  two decimal digits and unused slots are `"00"`. The module also has a
  decoder, and proves that the key is injective while every deck fits its
  `cards_in_deck` slots.
- `GameStates` (`game_state.dfy`) holds the `GameState` value. It covers the
  collapse test and `Validate`, construction (key and final flag), the
  accessors, the `GetPriority` heuristic with `operator<`, and moves. Every
  loop of the source is a `method` with its loop invariants. Each is proved
  equal to a recursive specification function, and the lemmas are stated
  about those functions.
- `Search` (`solitaire_game.dfy`) holds the `SolitaireGame` class. Its
  `visited` field is a `map<string, int>` (0 = enqueued, 1 = expanded) and
  its `frontier` field is a `seq<GameState>`. It has the constructor (the
  non-I/O tail of `ReadDecks`), `Step`, `SpawnNewStates` and `Solve`. These
  are methods that modify those two fields. Each is proved against functions
  on a `Table` value, and the class invariant is preserved throughout.

The model follows the code as written. Five consequences are proved:

- The key and `final_` are computed from the decks passed to the
  constructor, before the collapse. A state whose decks only become empty
  through the collapse is therefore not final (`CollapseKeepsKeyAndFinal`).
  A successor always has a card on its destination deck, so no successor is
  ever final (`SuccessorsNotFinal`). As a result, `Solve` reports success
  exactly when every initial deck was empty (`SolveLayout`). `ReadDecks`
  fills every deck with `cards_in_deck` cards, so the first state of the
  program itself is never final (`FullLayoutNotFinal`), and `main` never
  prints the "solvable" verdict (main.cpp:257-259).
- Moves do not check capacity (`MoveIgnoresCapacity`). Once a deck holds
  more than `cards_in_deck` cards, two different layouts can share a key
  (`OverfullKeysCollide`). This happens during a search with
  `cards_in_deck` 1: from three decks of one card each, moving deck 0 onto
  deck 2 gives one layout, and moving deck 2 onto deck 1 and then deck 0
  onto deck 2 gives another with the same key (`ReachableStatesCollide`). The search then treats the second layout
  as already seen.
- The move rule is a strict `<` on top cards. An empty deck's sentinel
  2000000000 accepts every card (`EmptyDestinationAcceptsAnyCard`).
- The priority's pair loop stops at `i == j` (`MoveBonus`). Its move test
  fires when deck j's top is one higher than deck i's (`ReceiverBonus`).
- The branch of `Step` that drops a popped state whose key already has
  status 1 (main.cpp:202-205) never fires. The constructor starts with one
  state whose key has status 0, and `Solve` keeps every frontier key distinct
  and at status 0 (`KeysFresh`). So `Step` always pops a state whose key has
  status 0: see the clause `old(KeysFresh()) ==> ...
  old(visited)[popped.key] == Enqueued` of `SolitaireGame.Step`.

## Model

| member | source | states |
|---|---|---|
| StateKey.EncodeRank | main.cpp:86-89 | A rank's field: "0" and the digit below 10, otherwise the two decimal digits. It always has two characters. |
| StateKey.Padding | main.cpp:80-82 | n unused slots: n copies of "00", so 2n characters. |
| StateKey.CardsKey | main.cpp:85-91 | The fields of a deck's cards, bottom card first, two characters per card. |
| StateKey.DeckKey | main.cpp:79-95 | A deck's segment. An empty deck gives cards_in_deck "00" fields. Any other deck gives its card fields, then "00" for each unused slot (none when it is over capacity). |
| StateKey.Key | main.cpp:78-96 | The key: the decks' segments joined in deck order. |
| StateKey.EncodeRankRoundTrip | main.cpp:86-89 | A rank's two-character field decodes back to the rank. Ranks below 10 get a leading '0'. The field is "00" exactly for rank 0. |
| StateKey.KeyLength | main.cpp:78-96 | If every deck fits its slots, the key has length 2 * cards_in_deck * number_of_decks. |
| StateKey.CardsKeyCons | main.cpp:85-91 | The cards' fields are written bottom card first. |
| StateKey.DecodeCards | main.cpp:85-91 | Decoding the fields of non-zero cards gives back the cards, followed by the decoding of what comes after them. |
| StateKey.DecodeDeckKey | main.cpp:79-94 | A deck's padded segment decodes to the deck, whether the deck is empty or not. |
| StateKey.KeyCons | main.cpp:78-96 | The key is the first deck's segment followed by the key of the remaining decks. |
| StateKey.KeyRoundTrip | main.cpp:78-96 | For ranks 1..99 and decks within capacity, decoding the key gives back the decks passed to the constructor. |
| StateKey.KeyInjective | main.cpp:78-96 | Under the same conditions, equal keys imply equal decks. |
| StateKey.OverfullKeysCollide | main.cpp:85-94 | With cards_in_deck 1, the layouts [[],[9],[8,7]] and [[],[9,8],[7]] have the same key "00" "09" "08" "07". |
| GameStates.CanCollapse | main.cpp:42-54 | A deck collapses when it has exactly cards_in_deck cards, the bottom one is bottom_rank, and each card is one below the card under it. |
| GameStates.CanCollapseIsRun | main.cpp:42-54 | The collapse test holds exactly when the deck is the descending run of cards_in_deck ranks starting at bottom_rank. |
| GameStates.CanDeckBeCollapsed | main.cpp:42-54 | The loop (size and bottom check, then the pairwise -1 test) returns exactly the collapse predicate. |
| GameStates.CollapseDeck | main.cpp:147-149 | A collapsible deck becomes empty. Any other deck is kept. |
| GameStates.Collapsed | main.cpp:145-151 | Every deck is collapsed in turn, and the number of decks is kept. |
| GameStates.CollapsedDecks | main.cpp:145-151 | After the collapse, each deck is unchanged, or is empty and its argument deck satisfied the test. Every deck that satisfied the test is emptied, and no remaining deck satisfies it. |
| GameStates.CollapsedIdempotent | main.cpp:145-151 | Collapsing twice is the same as collapsing once. |
| GameStates.Validate | main.cpp:145-151 | The in-place loop over the array of decks leaves exactly the collapsed decks. |
| GameStates.MakeState | main.cpp:68-98 | A constructed state keeps the configuration and the number of decks. Its key is the key of the argument decks and it is final iff every argument deck is empty. |
| GameStates.MakeStateKeepsDecks | main.cpp:145-151 | The constructor keeps a layout none of whose decks can be collapsed unchanged. |
| GameStates.FullLayoutNotFinal | main.cpp:163-176 | A layout as ReadDecks builds it, with at least one deck and every deck holding cards_in_deck >= 1 cards, is not all empty, so its first state is not final. |
| GameStates.MakeStateDecks | main.cpp:73-76 | A constructed state's decks are the argument decks, each unchanged or collapsed, and none of them is collapsible. |
| GameStates.AppendDeckKey | main.cpp:79-94 | The per-deck branch of the constructor appends exactly that deck's padded segment to the key. |
| GameStates.KeyAndFinal | main.cpp:72-96 | The constructor's loop builds the key of the argument decks and the final flag "every argument deck is empty". |
| GameStates.NewState | main.cpp:68-98 | The constructor as a method returns the state specified by MakeState. |
| GameStates.CollapseKeepsKeyAndFinal | main.cpp:72-84 | A single complete deck is emptied by the collapse, yet its state is not final and its key is "14". |
| GameStates.IsDeckEmpty | main.cpp:34-36 | A deck is empty when it holds no card. |
| GameStates.GetTopCard | main.cpp:29-32 | The top rank, or 2000000000 for an empty deck. |
| GameStates.EmptyDestinationAcceptsAnyCard | main.cpp:30 | A non-empty deck's top is below an empty deck's top. |
| GameStates.EmptySourceCannotMove | main.cpp:30 | An empty deck's top is never below another deck's top. |
| GameStates.AscendingPairs | main.cpp:114-116 | The number of positions j from 1 up to the bound whose card is one above the card below it. |
| GameStates.AdjacencyBonus | main.cpp:111-117 | The first loop: AscendingPairs of each non-empty deck, bounded by the number of decks. |
| GameStates.EmptyBonus | main.cpp:119-121 | The second loop: 50 for each empty deck. |
| GameStates.ReceiverBonus | main.cpp:125-131 | One row of the pair loop: 5000 * (size + 1) for each deck j < i that is empty or whose top card is one above deck i's. |
| GameStates.MoveBonus | main.cpp:123-132 | The pair loop: ReceiverBonus of each non-empty deck i. |
| GameStates.Priority | main.cpp:104-135 | The heuristic is never negative and equals 2000000000 for a final state. |
| GameStates.GetPriority | main.cpp:104-135 | The three accumulator loops compute the priority function: 20 per ascending pair at in-range positions, 50 per empty deck, 5000 * (size + 1) per receiving deck j < i. |
| GameStates.AdjacencyBonusBound | main.cpp:111-117 | The first loop adds at most 20 per position per deck. |
| GameStates.EmptyBonusBound | main.cpp:119-121 | The second loop adds at most 50 per deck. |
| GameStates.ReceiverBonusBound | main.cpp:125-131 | One row of the pair loop adds at most 5000 * (maxLen + 1) per deck visited. |
| GameStates.MoveBonusBound | main.cpp:123-132 | The pair loop adds at most 5000 * (maxLen + 1) * number_of_decks per row. |
| GameStates.PriorityBelowSentinel | main.cpp:104-135 | With at most 8 decks of at most 72 cards, a non-final state's priority is below 2000000000, so the int sum does not overflow. |
| GameStates.FinalOutranks | main.cpp:137-139 | Under the same bounds, a final state is strictly greater than a non-final state under operator<. |
| GameStates.Less | main.cpp:137-139 | operator< compares the two priorities only. |
| GameStates.LegalMove | main.cpp:215-223 | The guard of the move loops: i and j are different decks, deck i is not empty, and deck i's top card is strictly below deck j's (an empty deck reads as 2000000000). |
| GameStates.Move | main.cpp:224-227 | The copy has the top card of deck i removed and appended to deck j; every other deck is unchanged. |
| GameStates.CardsPush | main.cpp:227 | Appending a card adds exactly that card to the table's multiset of cards. |
| GameStates.CardsPop | main.cpp:225-226 | Popping the top card removes exactly that card from the multiset. |
| GameStates.MovePreservesCards | main.cpp:223-227 | A move is a permutation of the cards on the table, and the total card count is unchanged. |
| GameStates.MoveIgnoresCapacity | main.cpp:223-227 | A legal move can grow a deck past cards_in_deck. |
| Search.MovesFrom | main.cpp:218-223 | The moves the inner loop makes from deck i: the legal ones onto targets 0 to m - 1, in order. |
| Search.MovesBelow | main.cpp:214-223 | The moves the outer loop makes: MovesFrom of each non-empty deck 0 to m - 1, in order. |
| Search.Successor | main.cpp:224-229 | The state built from the decks with deck i's top card moved onto deck j. It keeps the configuration and the number of decks, and is never final. |
| Search.Play | main.cpp:224-229 | One successor per move, in the order of the moves. |
| Search.Successors | main.cpp:213-240 | The successors of a state, in loop order. |
| Search.MovesFromComplete | main.cpp:218-223 | The inner loop lists every legal move from deck i, at the returned position. |
| Search.MovesBelowComplete | main.cpp:214-223 | The outer loop lists every legal move, at the returned position. |
| Search.MovesFromLegal | main.cpp:218-223 | Every move the inner loop lists passes the guard: distinct decks, non-empty source, strictly smaller top. |
| Search.MovesBelowLegal | main.cpp:214-223 | Every move the outer loop lists is legal. |
| Search.PlayAt | main.cpp:224-229 | Playing a list of legal moves builds one successor per move, in order. |
| Search.PlayAppend | main.cpp:214-240 | Playing two lists of moves one after the other is the same as playing them joined. |
| Search.SuccessorsAreLegalMoves | main.cpp:213-240 | Every successor comes from a legal move, and every legal move gives a successor. |
| Search.SuccessorsNotFinal | main.cpp:223-229 | Every successor is well formed and not final. |
| Search.ReachableStatesCollide | main.cpp:223-237 | From [[7],[9],[8]] with cards_in_deck 1 and bottom_rank 14, two legal move sequences reach [[],[9],[8,7]] and [[],[9,8],[7]], whose keys are equal. |
| Search.Admit | main.cpp:230-237 | A candidate whose key is in the table is skipped. Otherwise its key gets status 0 and it is pushed. |
| Search.AdmitAll | main.cpp:230-237 | The candidates are admitted one after the other, in order. |
| Search.AdmitAllKeeps | main.cpp:230-237 | Admitting candidates never changes an existing entry and only appends to the frontier. Every new key has status 0, and every candidate's key ends up in the table. |
| Search.AdmitAllPushes | main.cpp:230-237 | The pushed states are candidates whose keys were absent and are now in the table, with pairwise distinct keys. |
| Search.AdmitAllAppend | main.cpp:214-240 | Admitting two candidate lists in turn is the same as admitting them joined. |
| Search.Cols | main.cpp:218-239 | The inner loop on the table: for targets 0 to m - 1, admit the successor of each legal move from deck i. |
| Search.Rows | main.cpp:214-240 | The outer loop on the table: Cols of each non-empty deck 0 to m - 1, in order. |
| Search.SuccessorsBelow | main.cpp:214-240 | The successors from source decks 0 to m - 1, deck by deck. |
| Search.Spawn | main.cpp:213-243 | SpawnNewStates on the table: the successors admitted in loop order, then the parent's key set to 1. |
| Search.Expand | main.cpp:207-208 | The expansion in Step: the popped key set to 1, then Spawn on the remaining frontier. |
| Search.Without | main.cpp:191-192 | The frontier with the popped element removed: one shorter, with the same multiset minus that element. |
| Search.ColsAdmitAll | main.cpp:218-239 | The inner loop's effect on the table is admitting the successors of deck i's legal moves, in loop order. |
| Search.PlayMovesBelow | main.cpp:214-240 | The successors of the outer loop's moves are the successors built deck by deck. |
| Search.RowsAdmitAll | main.cpp:214-240 | The outer loop's effect on the table is admitting all successors in loop order. |
| Search.RemoveKeepsConsistent | main.cpp:191-192 | Popping a state keeps the table invariant: frontier states are well formed with their keys in the table, statuses are 0 or 1, and only the initial state can be final. |
| Search.ExpandKeepsConsistent | main.cpp:207-242 | Expanding a state keeps the invariant, never lowers a status from 1, and leaves the popped key at 1. |
| Search.ExpandKeepsFresh | main.cpp:230-242 | Expanding keeps the frontier's keys pairwise distinct and all enqueued. |
| Search.RemoveKeepsFresh | main.cpp:191-192 | Popping keeps the keys distinct, and no remaining state shares the popped key. |
| Search.BestIndex | main.cpp:191 | The index the frontier pops: its priority is at least every other priority and strictly above every earlier one. |
| Search.BestIndexUnique | main.cpp:191 | Any index that is maximal and strictly above all earlier ones is BestIndex, so the pop is determined. |
| Search.ArgMaxPriority | main.cpp:191 | The loop returns BestIndex. |
| Search.StepOf | main.cpp:190-211 | One Step on the table. It pops BestIndex and is done exactly when the popped state is final. It keeps the table invariant, never lowers a status, and shrinks the frontier by at most one. |
| Search.Run | main.cpp:178-187 | Solve's loop with at most n steps. It is Unsolvable on an empty frontier and StepLimit when the bound is used up. It is Solvable when a step pops a final state; otherwise the run continues from the next table. |
| Search.RunUnfold | main.cpp:181-184 | With steps left, a step that pops a final state ends the run; any other step leaves one step fewer. |
| Search.RunOutcome | main.cpp:178-187 | A run keeps the table invariant and never lowers a status. Unsolvable leaves an empty frontier and StepLimit a non-empty one. Solvable needs a step and a final initial state. |
| Search.RunBoundOnlyTruncates | main.cpp:181-184 | A run that ends before the bound ends the same way with a larger bound: the bound only cuts runs short. |
| Search.SolitaireGame.constructor | main.cpp:155-176 | The initial state is built from the layout, entered with status 0 and pushed alone; the invariants hold. |
| Search.SolitaireGame.PopBest | main.cpp:191-192 | Removes and returns the state at BestIndex, whose priority is maximal. |
| Search.SolitaireGame.SpawnMovesFrom | main.cpp:218-239 | The inner loop updates the table exactly as the column specification says. |
| Search.SolitaireGame.SpawnNewStates | main.cpp:213-243 | The table becomes the parent's successors admitted in loop order, with the parent's key then set to 1. |
| Search.SolitaireGame.Step | main.cpp:190-211 | Performs StepOf on the table. It pops the state at BestIndex and returns true exactly when that state is final. A final state, or one whose key has status 1, is only removed. Otherwise it is expanded. Statuses never go from 1 to 0, and with fresh keys the popped key has status 0. |
| Search.SolitaireGame.Solve | main.cpp:178-187 | The outcome and final table are exactly Run from the starting table with maxSteps steps. Solvable only when the seed is final. Unsolvable only when the frontier is empty. A final seed is found on the first step. |
| Search.SolveLayout | main.cpp:155-187 | A layout is reported solvable exactly when every initial deck is empty (and the step bound is positive). |

## Left out

- Reading the ranks from standard input (main.cpp:163-171) and printing the verdict (main.cpp:257-261). `SolitaireGame.constructor` and `SolveLayout` take the initial decks as a parameter.
- `GetHash`, `IsFinal` and `GetCopyOfDecks` are field reads of the `GameState` datatype (`key`, `final`, `decks`).
- `operator==` (main.cpp:141-143) compares priorities only and is used nowhere.
- `std::to_string` in general: ranks are the subset type `Rank` (0..99), the range in which every field has two digits.
- `KeyRoundTrip` and `KeyInjective` also require ranks other than 0, because a card of rank 0 would read as padding.
- The out-of-range read at main.cpp:115 is undefined behaviour when a deck has fewer cards than there are decks. `AdjacencyBonus` visits only positions below both the number of decks and the deck's length.
- `cards_in_deck == 0`: `CanDeckBeCollapsed` would read the bottom card of an empty deck (main.cpp:43), so `ValidConfig` requires `cards_in_deck >= 1`.
- `std::priority_queue`: the frontier is a sequence, and `PopBest` takes the first state of maximal priority. The standard leaves the tie-break unspecified.
- `SolitaireGame.Solve`: termination over the reachable state space is not proved. A step bound `maxSteps` is added, with the outcome `StepLimit` when it runs out; `Run` defines what the bounded loop does, and `RunBoundOnlyTruncates` shows the bound only cuts a run short.
- `GetPriority`: the `int` accumulator is modelled as an unbounded integer. `PriorityBelowSentinel` shows it stays below 2000000000 for 8 decks of at most 72 cards.
- `GameState` objects are values; the moves of `std::move` and the copies of the frontier are not modelled.
