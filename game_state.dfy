/**
 * `GameState` (main.cpp:14-151): an immutable snapshot of the decks.
 *
 * Construction collapses every deck that holds a complete descending run,
 * and computes the key and the final flag from the decks it was GIVEN,
 * before the collapse (main.cpp:73-96).
 */
module GameStates {
  import opened StateKey

  /** The top card of an empty deck (main.cpp:30) and the priority of a final state (main.cpp:106). */
  const Sentinel: int := 2000000000

  /** `number_of_decks`, `cards_in_deck` and `bottom_rank` (main.cpp:60-62). */
  datatype Config = Config(numberOfDecks: nat, cardsInDeck: nat, bottomRank: int)

  /**
   * A configuration the collapse test can run on: with `cards_in_deck == 0`
   * it would read the bottom card of an empty deck (main.cpp:43).
   */
  predicate ValidConfig(cfg: Config)
  {
    cfg.cardsInDeck >= 1
  }

  /** `decks` is `decks_` after the collapse; `key` is `hash_string_`; `final` is `final_`. */
  datatype GameState = GameState(cfg: Config, decks: seq<Deck>, key: string, final: bool)

  // ---------------------------------------------------------------------
  // Collapse (main.cpp:42-54, 145-151)
  // ---------------------------------------------------------------------

  /** `CanDeckBeCollapsed`: exactly `cards_in_deck` cards, the bottom one `bottom_rank`, each next one lower by one. */
  predicate CanCollapse(cfg: Config, deck: Deck)
    requires ValidConfig(cfg)
  {
    |deck| == cfg.cardsInDeck && deck[0] == cfg.bottomRank &&
    forall k :: 1 <= k < cfg.cardsInDeck ==> deck[k] as int - deck[k - 1] == -1
  }

  /** The run `top, top - 1, ..., top - n + 1`, bottom to top. */
  function DescendingRun(top: int, n: nat): (run: seq<int>)
    ensures |run| == n
    decreases n
  {
    if n == 0 then [] else [top] + DescendingRun(top - 1, n - 1)
  }

  lemma {:induction false} DescendingRunAt(top: int, n: nat, k: nat)
    requires k < n
    ensures DescendingRun(top, n)[k] == top - k
    decreases k
  {
    if k > 0 {
      DescendingRunAt(top - 1, n - 1, k - 1);
    }
  }

  /** A deck collapses exactly when it is the full run from `bottom_rank` downwards. */
  lemma CanCollapseIsRun(cfg: Config, deck: Deck)
    requires ValidConfig(cfg)
    ensures CanCollapse(cfg, deck) <==> deck == DescendingRun(cfg.bottomRank, cfg.cardsInDeck)
  {
    var n := cfg.cardsInDeck;
    var run := DescendingRun(cfg.bottomRank, n);
    forall k | 0 <= k < n
      ensures run[k] == cfg.bottomRank - k
    {
      DescendingRunAt(cfg.bottomRank, n, k);
    }
    if CanCollapse(cfg, deck) {
      var k := 0;
      while k < n
        invariant 0 <= k <= n
        invariant forall m :: 0 <= m < k ==> deck[m] == cfg.bottomRank - m
      {
        if k > 0 {
          assert deck[k] as int - deck[k - 1] == -1;
        }
        k := k + 1;
      }
      assert deck == run;
    }
  }

  /** The loop of `CanDeckBeCollapsed`. */
  method CanDeckBeCollapsed(cfg: Config, deck: Deck) returns (collapsible: bool)
    requires ValidConfig(cfg)
    ensures collapsible == CanCollapse(cfg, deck)
  {
    if |deck| != cfg.cardsInDeck || deck[0] != cfg.bottomRank {
      return false;
    }
    for i := 1 to cfg.cardsInDeck
      invariant forall k :: 1 <= k < i ==> deck[k] as int - deck[k - 1] == -1
    {
      if deck[i] as int - deck[i - 1] != -1 {
        return false;
      }
    }
    return true;
  }

  /** One deck after `Validate`: emptied when it can be collapsed, untouched otherwise. */
  function CollapseDeck(cfg: Config, deck: Deck): Deck
    requires ValidConfig(cfg)
  {
    if CanCollapse(cfg, deck) then [] else deck
  }

  /** `Validate`: one pass that empties every collapsible deck. */
  function Collapsed(cfg: Config, decks: seq<Deck>): (r: seq<Deck>)
    requires ValidConfig(cfg)
    ensures |r| == |decks|
  {
    if decks == [] then [] else Collapsed(cfg, decks[..|decks| - 1]) + [CollapseDeck(cfg, decks[|decks| - 1])]
  }

  lemma {:induction false} CollapsedAt(cfg: Config, decks: seq<Deck>, k: nat)
    requires ValidConfig(cfg) && k < |decks|
    ensures Collapsed(cfg, decks)[k] == CollapseDeck(cfg, decks[k])
  {
    var init := decks[..|decks| - 1];
    if k < |init| {
      CollapsedAt(cfg, init, k);
    }
  }

  /**
   * Every deck is kept or, being collapsible, emptied; every collapsible
   * deck is emptied; and no deck of the result can be collapsed.
   */
  lemma CollapsedDecks(cfg: Config, decks: seq<Deck>)
    requires ValidConfig(cfg)
    ensures var r := Collapsed(cfg, decks);
      (forall k :: 0 <= k < |r| ==> r[k] == decks[k] || (r[k] == [] && CanCollapse(cfg, decks[k]))) &&
      (forall k :: 0 <= k < |r| ==> CanCollapse(cfg, decks[k]) ==> r[k] == []) &&
      (forall k :: 0 <= k < |r| ==> !CanCollapse(cfg, r[k]))
  {
    forall k | 0 <= k < |decks|
      ensures Collapsed(cfg, decks)[k] == CollapseDeck(cfg, decks[k])
    {
      CollapsedAt(cfg, decks, k);
    }
  }

  /** A single pass suffices: collapsing again changes nothing. */
  lemma CollapsedIdempotent(cfg: Config, decks: seq<Deck>)
    requires ValidConfig(cfg)
    ensures Collapsed(cfg, Collapsed(cfg, decks)) == Collapsed(cfg, decks)
  {
    var once := Collapsed(cfg, decks);
    var twice := Collapsed(cfg, once);
    CollapsedDecks(cfg, decks);
    CollapsedDecks(cfg, once);
    assert forall k :: 0 <= k < |once| ==> twice[k] == once[k];
  }

  /** `Validate` on the decks in place. */
  method Validate(cfg: Config, decks: array<Deck>)
    requires ValidConfig(cfg)
    modifies decks
    ensures decks[..] == Collapsed(cfg, old(decks[..]))
  {
    ghost var input := decks[..];
    for i := 0 to decks.Length
      invariant decks[..i] == Collapsed(cfg, input[..i])
      invariant decks[i..] == input[i..]
    {
      var collapsible := CanDeckBeCollapsed(cfg, decks[i]);
      if collapsible {
        decks[i] := [];
      }
      assert input[..i + 1][..i] == input[..i];
      assert decks[..i + 1] == decks[..i] + [decks[i]];
    }
    assert input[..decks.Length] == input;
  }

  // ---------------------------------------------------------------------
  // Construction (main.cpp:68-98)
  // ---------------------------------------------------------------------

  predicate AllEmpty(decks: seq<Deck>)
  {
    forall k :: 0 <= k < |decks| ==> decks[k] == []
  }

  /** The state the constructor builds from `input`. */
  function MakeState(cfg: Config, input: seq<Deck>): (s: GameState)
    requires ValidConfig(cfg)
    ensures s.cfg == cfg
    ensures |s.decks| == |input|
    ensures s.key == Key(cfg.cardsInDeck, input)
    ensures s.final <==> AllEmpty(input)
  {
    GameState(cfg, Collapsed(cfg, input), Key(cfg.cardsInDeck, input), AllEmpty(input))
  }

  /**
   * Each deck of the new state is the input deck or, if that deck could be
   * collapsed, empty; so no deck of the state can be collapsed.
   */
  lemma MakeStateDecks(cfg: Config, input: seq<Deck>)
    requires ValidConfig(cfg)
    ensures var s := MakeState(cfg, input);
      (forall k :: 0 <= k < |input| ==> s.decks[k] == input[k] || (s.decks[k] == [] && CanCollapse(cfg, input[k]))) &&
      (forall k :: 0 <= k < |input| ==> !CanCollapse(cfg, s.decks[k]))
  {
    CollapsedDecks(cfg, input);
  }

  /** A layout none of whose decks can be collapsed is kept as it is. */
  lemma MakeStateKeepsDecks(cfg: Config, input: seq<Deck>)
    requires ValidConfig(cfg)
    requires forall k :: 0 <= k < |input| ==> !CanCollapse(cfg, input[k])
    ensures MakeState(cfg, input).decks == input
  {
    MakeStateDecks(cfg, input);
  }

  /**
   * `ReadDecks` fills every deck with `cards_in_deck` cards, so with at least
   * one deck the first state is never final.
   */
  lemma FullLayoutNotFinal(cfg: Config, init: seq<Deck>)
    requires ValidConfig(cfg) && |init| >= 1
    requires forall k :: 0 <= k < |init| ==> |init[k]| == cfg.cardsInDeck
    ensures !AllEmpty(init) && !MakeState(cfg, init).final
  {
    assert init[0] != [];
  }

  /** One deck's iteration of the constructor's key loop (main.cpp:79-95). */
  method AppendDeckKey(capacity: nat, hash: string, deck: Deck) returns (extended: string)
    ensures extended == hash + DeckKey(capacity, deck)
  {
    extended := hash;
    if deck == [] {
      for i := 0 to capacity
        invariant extended == hash + Padding(i)
      {
        ConcatAssoc(hash, Padding(i), "00");
        extended := extended + "00";
      }
      assert DeckKey(capacity, deck) == Padding(capacity);
    } else {
      for c := 0 to |deck|
        invariant extended == hash + CardsKey(deck[..c])
      {
        assert deck[..c + 1][..c] == deck[..c];
        ConcatAssoc(hash, CardsKey(deck[..c]), EncodeRank(deck[c]));
        extended := extended + EncodeRank(deck[c]);
      }
      assert deck[..|deck|] == deck;
      ghost var cards := extended;
      var i := |deck|;
      while i < capacity
        invariant extended == cards + Padding(i - |deck|)
        invariant |deck| <= i && (i <= capacity || i == |deck|)
      {
        ConcatAssoc(cards, Padding(i - |deck|), "00");
        extended := extended + "00";
        i := i + 1;
      }
      assert i - |deck| == UnusedSlots(capacity, deck);
      assert DeckKey(capacity, deck) == CardsKey(deck) + Padding(i - |deck|);
      ConcatAssoc(hash, CardsKey(deck), Padding(i - |deck|));
    }
  }

  /** The constructor: copy, collapse in place, then compute the key and the final flag. */
  method NewState(cfg: Config, input: seq<Deck>) returns (s: GameState)
    requires ValidConfig(cfg)
    ensures s == MakeState(cfg, input)
  {
    var decks := new Deck[|input|](k requires 0 <= k < |input| => input[k]);
    assert decks[..] == input;
    Validate(cfg, decks);
    var hash, final := KeyAndFinal(cfg.cardsInDeck, input);
    s := GameState(cfg, decks[..], hash, final);
  }

  /** The constructor's loop over the uncollapsed decks (main.cpp:78-96): append each deck's key, note any non-empty deck. */
  method KeyAndFinal(capacity: nat, input: seq<Deck>) returns (hash: string, final: bool)
    ensures hash == Key(capacity, input)
    ensures final <==> AllEmpty(input)
  {
    final := true;
    hash := "";
    for k := 0 to |input|
      invariant hash == Key(capacity, input[..k])
      invariant final <==> AllEmpty(input[..k])
    {
      var deck := input[k];
      PrefixStep(capacity, input, k);
      if deck != [] {
        final := false;
      }
      hash := AppendDeckKey(capacity, hash, deck);
    }
    assert input[..|input|] == input;
  }

  /** One more deck of the constructor's loop: its key is appended and it joins the emptiness test. */
  lemma PrefixStep(capacity: nat, input: seq<Deck>, k: nat)
    requires k < |input|
    ensures Key(capacity, input[..k + 1]) == Key(capacity, input[..k]) + DeckKey(capacity, input[k])
    ensures AllEmpty(input[..k + 1]) <==> AllEmpty(input[..k]) && input[k] == []
  {
    assert input[..k + 1][..k] == input[..k] && input[..k + 1][k] == input[k];
  }

  /** The key and the final flag come from the decks before the collapse (main.cpp:78). */
  lemma CollapseKeepsKeyAndFinal()
    ensures var s := MakeState(Config(1, 1, 14), [[14]]);
      s.decks == [[]] && !s.final && s.key == "14"
  {
    var s := MakeState(Config(1, 1, 14), [[14]]);
    assert CanCollapse(Config(1, 1, 14), [14]);
    assert EncodeRank(14) == "14";
    assert [14][..0] == [] && [[14]][..0] == [];
    assert s.decks == [[]];
  }

  // ---------------------------------------------------------------------
  // Accessors (main.cpp:25-36)
  // ---------------------------------------------------------------------

  predicate IsDeckEmpty(s: GameState, i: nat)
    requires i < |s.decks|
  {
    s.decks[i] == []
  }

  /** `GetTopCard`: the rank of the top card, or the sentinel for an empty deck. */
  function GetTopCard(s: GameState, i: nat): (top: int)
    requires i < |s.decks|
    ensures IsDeckEmpty(s, i) ==> top == Sentinel
    ensures !IsDeckEmpty(s, i) ==> top == s.decks[i][|s.decks[i]| - 1]
  {
    if s.decks[i] == [] then Sentinel else s.decks[i][|s.decks[i]| - 1]
  }

  /** The sentinel is above every rank, so an empty destination accepts any card... */
  lemma EmptyDestinationAcceptsAnyCard(s: GameState, i: nat, j: nat)
    requires i < |s.decks| && j < |s.decks|
    requires !IsDeckEmpty(s, i) && IsDeckEmpty(s, j)
    ensures GetTopCard(s, i) < GetTopCard(s, j)
  {
  }

  /** ...and an empty source deck never has a card to move. */
  lemma EmptySourceCannotMove(s: GameState, i: nat, j: nat)
    requires i < |s.decks| && j < |s.decks|
    requires IsDeckEmpty(s, i)
    ensures !(GetTopCard(s, i) < GetTopCard(s, j))
  {
  }

  // ---------------------------------------------------------------------
  // Priority (main.cpp:104-139)
  // ---------------------------------------------------------------------

  function Last(deck: Deck): Rank
    requires deck != []
  {
    deck[|deck| - 1]
  }

  function Min(a: int, b: int): int
  {
    if a < b then a else b
  }

  /** The number of positions p in [1, n) whose card is one above the card below it. */
  function AscendingPairs(deck: Deck, n: nat): nat
    requires n <= |deck|
  {
    if n <= 1 then 0
    else AscendingPairs(deck, n - 1) + (if deck[n - 1] as int - deck[n - 2] == 1 then 1 else 0)
  }

  /** First loop (main.cpp:111-117) over the first m decks: 20 per ascending pair, positions below `bound`. */
  function AdjacencyBonus(decks: seq<Deck>, m: nat, bound: nat): nat
    requires m <= |decks|
  {
    if m == 0 then 0
    else
      var deck := decks[m - 1];
      AdjacencyBonus(decks, m - 1, bound) + (if deck == [] then 0 else 20 * AscendingPairs(deck, Min(bound, |deck|)))
  }

  /** Second loop (main.cpp:119-121) over the first m decks: 50 per empty deck. */
  function EmptyBonus(decks: seq<Deck>, m: nat): nat
    requires m <= |decks|
  {
    if m == 0 then 0 else EmptyBonus(decks, m - 1) + (if decks[m - 1] == [] then 50 else 0)
  }

  /** The inner loop of main.cpp:125-131 for the non-empty deck i, over the decks j < m. */
  function ReceiverBonus(decks: seq<Deck>, i: nat, m: nat): nat
    requires i < |decks| && m <= |decks| && decks[i] != []
  {
    if m == 0 then 0
    else
      var receiver := decks[m - 1];
      var bonus := if receiver == [] || Last(decks[i]) as int - Last(receiver) == -1 then 5000 * (|receiver| + 1) else 0;
      ReceiverBonus(decks, i, m - 1) + bonus
  }

  /** Third loop (main.cpp:123-132) over the first m decks; the `break` at i == j stops each row at j = i. */
  function MoveBonus(decks: seq<Deck>, m: nat): nat
    requires m <= |decks|
  {
    if m == 0 then 0
    else MoveBonus(decks, m - 1) + (if decks[m - 1] == [] then 0 else ReceiverBonus(decks, m - 1, m - 1))
  }

  /** `GetPriority`. */
  function Priority(s: GameState): (p: int)
    ensures p >= 0
    ensures s.final ==> p == Sentinel
  {
    if s.final then Sentinel
    else
      var d := s.decks;
      AdjacencyBonus(d, |d|, |d|) + EmptyBonus(d, |d|) + MoveBonus(d, |d|)
  }

  /** `operator<`: the frontier's ordering compares priorities only. */
  predicate Less(a: GameState, b: GameState)
  {
    Priority(a) < Priority(b)
  }

  /** The three loops of `GetPriority`. */
  method GetPriority(s: GameState) returns (p: int)
    ensures p == Priority(s)
  {
    if s.final {
      return Sentinel;
    }
    var d := s.decks;
    var n := |d|;
    p := 0;
    for k := 0 to n
      invariant p == AdjacencyBonus(d, k, n)
    {
      if d[k] == [] {
        continue;
      }
      var j := 1;
      while j < n && j < |d[k]|
        invariant 1 <= j <= |d[k]|
        invariant j <= n || j == 1
        invariant p == AdjacencyBonus(d, k, n) + 20 * AscendingPairs(d[k], j)
      {
        if d[k][j] as int - d[k][j - 1] == 1 {
          p := p + 20;
        }
        j := j + 1;
      }
      assert j == Min(n, |d[k]|);
    }
    var adjacency := p;
    for k := 0 to n
      invariant p == adjacency + EmptyBonus(d, k)
    {
      if d[k] == [] {
        p := p + 50;
      }
    }
    var empty := p;
    for i := 0 to n
      invariant p == empty + MoveBonus(d, i)
    {
      if d[i] == [] {
        continue;
      }
      var j := 0;
      while j < n
        invariant j <= i
        invariant p == empty + MoveBonus(d, i) + ReceiverBonus(d, i, j)
      {
        if i == j {
          break;
        }
        if d[j] == [] || Last(d[i]) as int - Last(d[j]) == -1 {
          p := p + 5000 * (|d[j]| + 1);
        }
        j := j + 1;
      }
    }
  }

  // Upper bounds on the three terms, for the sentinel and for 32-bit range.

  lemma {:induction false} AscendingPairsBound(deck: Deck, n: nat)
    requires n <= |deck|
    ensures AscendingPairs(deck, n) <= n
  {
    if n > 1 {
      AscendingPairsBound(deck, n - 1);
    }
  }

  lemma {:induction false} AdjacencyBonusBound(decks: seq<Deck>, m: nat, bound: nat)
    requires m <= |decks|
    ensures AdjacencyBonus(decks, m, bound) <= 20 * bound * m
  {
    if m > 0 {
      AdjacencyBonusBound(decks, m - 1, bound);
      var deck := decks[m - 1];
      if deck != [] {
        AscendingPairsBound(deck, Min(bound, |deck|));
      }
      MultiplySucc(20 * bound, m - 1);
    }
  }

  lemma {:induction false} EmptyBonusBound(decks: seq<Deck>, m: nat)
    requires m <= |decks|
    ensures EmptyBonus(decks, m) <= 50 * m
  {
    if m > 0 {
      EmptyBonusBound(decks, m - 1);
    }
  }

  lemma {:induction false} ReceiverBonusBound(decks: seq<Deck>, i: nat, m: nat, maxLen: nat)
    requires i < |decks| && m <= |decks| && decks[i] != []
    requires forall k :: 0 <= k < |decks| ==> |decks[k]| <= maxLen
    ensures ReceiverBonus(decks, i, m) <= 5000 * (maxLen + 1) * m
  {
    if m > 0 {
      ReceiverBonusBound(decks, i, m - 1, maxLen);
      MultiplySucc(5000 * (maxLen + 1), m - 1);
    }
  }

  lemma {:induction false} MoveBonusBound(decks: seq<Deck>, m: nat, maxLen: nat)
    requires m <= |decks|
    requires forall k :: 0 <= k < |decks| ==> |decks[k]| <= maxLen
    ensures MoveBonus(decks, m) <= 5000 * (maxLen + 1) * |decks| * m
  {
    if m > 0 {
      var row := 5000 * (maxLen + 1);
      MoveBonusBound(decks, m - 1, maxLen);
      if decks[m - 1] != [] {
        ReceiverBonusBound(decks, m - 1, m - 1, maxLen);
        MultiplyMonotone(row, m - 1, |decks|);
      }
      MultiplySucc(row * |decks|, m - 1);
    }
  }

  lemma MultiplyMonotone(a: nat, b: nat, c: nat)
    requires b <= c
    ensures a * b <= a * c
  {
  }

  /**
   * With at most 8 decks (the source's configuration) of at most 72 cards
   * each, a non-final priority stays below the sentinel, and below 2^31:
   * a final state outranks every other one and the `int` accumulator of
   * `GetPriority` cannot overflow.
   */
  lemma PriorityBelowSentinel(s: GameState)
    requires !s.final && |s.decks| <= 8
    requires forall k :: 0 <= k < |s.decks| ==> |s.decks[k]| <= 72
    ensures Priority(s) < Sentinel
  {
    var d := s.decks;
    var n := |d|;
    AdjacencyBonusBound(d, n, n);
    EmptyBonusBound(d, n);
    MoveBonusBound(d, n, 72);
    MultiplyMonotone(20 * n, n, 8);
    MultiplyMonotone(5000 * 73 * n, n, 8);
    MultiplyMonotone(5000 * 73 * 8, n, 8);
  }

  /** Hence `operator<` puts a final state above any such non-final state. */
  lemma FinalOutranks(a: GameState, b: GameState)
    requires a.final && !b.final && |b.decks| <= 8
    requires forall k :: 0 <= k < |b.decks| ==> |b.decks[k]| <= 72
    ensures Less(b, a) && !Less(a, b)
  {
    PriorityBelowSentinel(b);
  }

  // ---------------------------------------------------------------------
  // Moves (main.cpp:213-229)
  // ---------------------------------------------------------------------

  /** The multiset of all cards on the table. */
  function Cards(decks: seq<Deck>): multiset<Rank>
  {
    if decks == [] then multiset{} else Cards(decks[..|decks| - 1]) + multiset(decks[|decks| - 1])
  }

  function TotalCards(decks: seq<Deck>): nat
  {
    if decks == [] then 0 else TotalCards(decks[..|decks| - 1]) + |decks[|decks| - 1]|
  }

  /** The guard of main.cpp:215-223: a different deck, a non-empty source, and a strictly smaller top card. */
  predicate LegalMove(s: GameState, i: nat, j: nat)
  {
    i < |s.decks| && j < |s.decks| && i != j && !IsDeckEmpty(s, i) && GetTopCard(s, i) < GetTopCard(s, j)
  }

  /** The copied decks with the top card of deck i moved onto deck j (main.cpp:224-227). */
  function Move(decks: seq<Deck>, i: nat, j: nat): (r: seq<Deck>)
    requires i < |decks| && j < |decks| && i != j && decks[i] != []
    ensures |r| == |decks|
    ensures r[i] + [Last(decks[i])] == decks[i]
    ensures r[j] == decks[j] + [Last(decks[i])]
    ensures forall k :: 0 <= k < |decks| && k != i && k != j ==> r[k] == decks[k]
  {
    var card := Last(decks[i]);
    var copy := decks[i := decks[i][..|decks[i]| - 1]];
    copy[j := copy[j] + [card]]
  }

  /** Putting a card on deck k adds exactly that card to the table. */
  lemma {:induction false} CardsPush(decks: seq<Deck>, k: nat, card: Rank)
    requires k < |decks|
    ensures Cards(decks[k := decks[k] + [card]]) == Cards(decks) + multiset{card}
  {
    var updated := decks[k := decks[k] + [card]];
    var n := |decks|;
    var init := decks[..n - 1];
    assert multiset(decks[k] + [card]) == multiset(decks[k]) + multiset{card};
    if k == n - 1 {
      assert updated[..n - 1] == init;
    } else {
      assert updated[..n - 1] == init[k := init[k] + [card]];
      CardsPush(init, k, card);
    }
  }

  /** Taking the top card off deck k removes exactly that card from the table. */
  lemma {:induction false} CardsPop(decks: seq<Deck>, k: nat)
    requires k < |decks| && decks[k] != []
    ensures Cards(decks[k := decks[k][..|decks[k]| - 1]]) + multiset{Last(decks[k])} == Cards(decks)
  {
    var rest := decks[k][..|decks[k]| - 1];
    var updated := decks[k := rest];
    assert rest + [Last(decks[k])] == decks[k];
    assert updated[k := updated[k] + [Last(decks[k])]] == decks;
    CardsPush(updated, k, Last(decks[k]));
  }

  /** The number of cards is the size of the multiset of cards. */
  lemma {:induction false} TotalCardsIsSize(decks: seq<Deck>)
    ensures TotalCards(decks) == |Cards(decks)|
  {
    if decks != [] {
      TotalCardsIsSize(decks[..|decks| - 1]);
    }
  }

  /** A move keeps every card on the table: the same multiset, hence the same count. */
  lemma MovePreservesCards(decks: seq<Deck>, i: nat, j: nat)
    requires i < |decks| && j < |decks| && i != j && decks[i] != []
    ensures Cards(Move(decks, i, j)) == Cards(decks)
    ensures TotalCards(Move(decks, i, j)) == TotalCards(decks)
  {
    var card := Last(decks[i]);
    var copy := decks[i := decks[i][..|decks[i]| - 1]];
    CardsPop(decks, i);
    CardsPush(copy, j, card);
    TotalCardsIsSize(decks);
    TotalCardsIsSize(Move(decks, i, j));
  }

  /** The destination may grow past `cards_in_deck`: capacity is not checked (main.cpp:223-227). */
  lemma MoveIgnoresCapacity()
    ensures var s := MakeState(Config(2, 1, 14), [[9], [8]]);
      LegalMove(s, 1, 0) && |Move(s.decks, 1, 0)[0]| == 2 > s.cfg.cardsInDeck
  {
    var cfg := Config(2, 1, 14);
    assert !CanCollapse(cfg, [9]) && !CanCollapse(cfg, [8]);
    var s := MakeState(cfg, [[9], [8]]);
    assert s.decks == [[9], [8]];
  }
}
