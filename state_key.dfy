/**
 * The textual key of a layout of decks (main.cpp:78-96).
 *
 * Every deck contributes one two-character field per card, bottom to top,
 * followed by "00" for every unused slot up to the deck capacity. A rank
 * below 10 is written with a leading '0'. Ranks are restricted to 0..99,
 * the range in which this is the decimal rendering the source produces.
 */
module StateKey {

  /** A card's rank: the key writes it in two decimal digits. */
  type Rank = r: int | 0 <= r <= 99

  /** A deck: card ranks from the bottom card (index 0) to the top card. */
  type Deck = seq<Rank>

  /** No card of any deck has rank 0, so no card encodes as "00". */
  predicate RanksNonZero(decks: seq<Deck>)
  {
    forall k, c :: 0 <= k < |decks| && 0 <= c < |decks[k]| ==> decks[k][c] != 0
  }

  /** No card of one deck has rank 0. */
  predicate NonZeroCards(deck: Deck)
  {
    forall c :: 0 <= c < |deck| ==> deck[c] != 0
  }

  /** No deck holds more cards than the capacity. */
  predicate WithinCapacity(capacity: nat, decks: seq<Deck>)
  {
    forall k :: 0 <= k < |decks| ==> |decks[k]| <= capacity
  }

  function Digit(d: int): char
    requires 0 <= d <= 9
  {
    ('0' as int + d) as char
  }

  function DigitValue(ch: char): int
  {
    ch as int - '0' as int
  }

  /** The two-character value of a field of the key. */
  function DecodeRank(field: string): int
    requires |field| == 2
  {
    10 * DigitValue(field[0]) + DigitValue(field[1])
  }

  /** One card's field: `std::to_string(rank)`, prefixed by "0" when the rank is below 10. */
  function EncodeRank(r: Rank): (field: string)
    ensures |field| == 2
  {
    if r < 10 then "0" + [Digit(r)] else [Digit(r / 10), Digit(r % 10)]
  }

  /** A field decodes back to its rank; ranks below 10 get a leading '0'; only rank 0 gives "00". */
  lemma EncodeRankRoundTrip(r: Rank)
    ensures DecodeRank(EncodeRank(r)) == r
    ensures r < 10 ==> EncodeRank(r)[0] == '0'
    ensures EncodeRank(r)[0] == '0' && EncodeRank(r)[1] == '0' <==> r == 0
  {
    var field := EncodeRank(r);
    if r >= 10 {
      assert DigitValue(field[0]) == r / 10 && DigitValue(field[1]) == r % 10;
    } else {
      assert DigitValue(field[1]) == r;
    }
  }

  /** The filler for `n` unused slots. */
  function Padding(n: nat): (s: string)
    ensures |s| == 2 * n
  {
    if n == 0 then "" else Padding(n - 1) + "00"
  }

  lemma {:induction false} PaddingIsZeros(n: nat)
    ensures forall k :: 0 <= k < 2 * n ==> Padding(n)[k] == '0'
  {
    if n > 0 {
      PaddingIsZeros(n - 1);
    }
  }

  /** The fields of the cards of one deck, in the order the constructor appends them. */
  function CardsKey(deck: Deck): (s: string)
    ensures |s| == 2 * |deck|
  {
    if deck == [] then "" else CardsKey(deck[..|deck| - 1]) + EncodeRank(deck[|deck| - 1])
  }

  /** Field `c` of a deck's cards (characters 2c and 2c + 1) is the encoding of card `c`. */
  lemma {:induction false} CardsKeyField(deck: Deck, c: nat)
    requires c < |deck|
    ensures CardsKey(deck)[2 * c] == EncodeRank(deck[c])[0]
    ensures CardsKey(deck)[2 * c + 1] == EncodeRank(deck[c])[1]
  {
    var init := deck[..|deck| - 1];
    if c < |init| {
      CardsKeyField(init, c);
    }
  }

  /** The number of "00" fields that follow a deck's cards (the loop at main.cpp:92 runs no times when the deck is over capacity). */
  function UnusedSlots(capacity: nat, deck: Deck): nat
  {
    if |deck| < capacity then capacity - |deck| else 0
  }

  /** One deck's part of the key (main.cpp:79-95). */
  function DeckKey(capacity: nat, deck: Deck): string
  {
    if deck == [] then Padding(capacity)
    else CardsKey(deck) + Padding(UnusedSlots(capacity, deck))
  }

  /** The whole key: the decks' parts in deck order. */
  function Key(capacity: nat, decks: seq<Deck>): string
  {
    if decks == [] then ""
    else Key(capacity, decks[..|decks| - 1]) + DeckKey(capacity, decks[|decks| - 1])
  }

  /** Reads cards two characters at a time until a "00" field or the end. */
  function DecodeDeck(s: string): seq<int>
    decreases |s|
  {
    if |s| < 2 || (s[0] == '0' && s[1] == '0') then [] else [DecodeRank(s[..2])] + DecodeDeck(s[2..])
  }

  /** Cuts a key into fields of `capacity` slots each and decodes every deck. */
  function DecodeKey(capacity: nat, key: string): seq<seq<int>>
    requires capacity >= 1
    decreases |key|
  {
    if |key| < 2 * capacity then [] else [DecodeDeck(key[..2 * capacity])] + DecodeKey(capacity, key[2 * capacity..])
  }

  /** A deck within capacity occupies exactly `capacity` fields: its cards' fields, then "00" for every unused slot. */
  lemma DeckKeyShape(capacity: nat, deck: Deck)
    requires |deck| <= capacity
    ensures |DeckKey(capacity, deck)| == 2 * capacity
  {
  }

  /** With every deck within capacity the key has the fixed width 2 * decks * capacity. */
  lemma {:induction false} KeyLength(capacity: nat, decks: seq<Deck>)
    requires WithinCapacity(capacity, decks)
    ensures |Key(capacity, decks)| == 2 * capacity * |decks|
  {
    if decks != [] {
      var init, last := decks[..|decks| - 1], decks[|decks| - 1];
      var width := 2 * capacity;
      assert WithinCapacity(capacity, init);
      KeyLength(capacity, init);
      assert |DeckKey(capacity, last)| == width;
      assert |Key(capacity, decks)| == |Key(capacity, init)| + width;
      MultiplySucc(width, |init|);
    }
  }

  lemma MultiplySucc(width: int, n: int)
    ensures width * n + width == width * (n + 1)
  {
  }

  /** The cards' fields read front to back: the bottom card's field, then the fields of the cards above it. */
  lemma {:induction false} CardsKeyCons(bottom: Rank, above: Deck)
    ensures CardsKey([bottom] + above) == EncodeRank(bottom) + CardsKey(above)
  {
    var deck := [bottom] + above;
    if above == [] {
      assert deck[..0] == [];
    } else {
      var init, top := above[..|above| - 1], above[|above| - 1];
      assert deck[..|deck| - 1] == [bottom] + init && deck[|deck| - 1] == top;
      CardsKeyCons(bottom, init);
      ConcatAssoc(EncodeRank(bottom), CardsKey(init), EncodeRank(top));
    }
  }

  lemma {:induction false} DecodeCards(deck: Deck, rest: string)
    requires NonZeroCards(deck)
    ensures DecodeDeck(CardsKey(deck) + rest) == deck + DecodeDeck(rest)
  {
    if deck == [] {
      assert CardsKey(deck) + rest == rest;
    } else {
      var bottom, above := deck[0], deck[1..];
      assert NonZeroCards(above) && bottom != 0;
      assert deck == [bottom] + above;
      CardsKeyCons(bottom, above);
      var tail := CardsKey(above) + rest;
      assert CardsKey(deck) + rest == EncodeRank(bottom) + tail;
      var after := DecodeDeck(rest);
      assert DecodeDeck(EncodeRank(bottom) + tail) == [bottom] + (above + after) by {
        DecodeField(bottom, tail);
        DecodeCards(above, rest);
      }
      ConcatAssoc([bottom], above, after);
      assert [bottom] + above == deck;
    }
  }

  lemma ConcatAssoc<T>(a: seq<T>, b: seq<T>, c: seq<T>)
    ensures a + (b + c) == (a + b) + c
  {
  }

  /** A non-zero rank's field decodes to that rank, whatever follows it. */
  lemma DecodeField(rank: Rank, rest: string)
    requires rank != 0
    ensures DecodeDeck(EncodeRank(rank) + rest) == [rank] + DecodeDeck(rest)
  {
    var field := EncodeRank(rank);
    EncodeRankRoundTrip(rank);
    assert (field + rest)[0] == field[0] && (field + rest)[1] == field[1];
    assert (field + rest)[..2] == field && (field + rest)[2..] == rest;
  }

  /** One deck within capacity decodes back from its part of the key. */
  lemma DecodeDeckKey(capacity: nat, deck: Deck)
    requires NonZeroCards(deck)
    requires |deck| <= capacity
    ensures DecodeDeck(DeckKey(capacity, deck)) == deck
  {
    var pad := Padding(capacity - |deck|);
    PaddingIsZeros(capacity - |deck|);
    assert DecodeDeck(pad) == [] by {
      if |pad| >= 2 { assert pad[0] == '0' && pad[1] == '0'; }
    }
    if deck != [] {
      DecodeCards(deck, pad);
    }
  }

  /** The key read front to back: the first deck's part, then the key of the remaining decks. */
  lemma {:induction false} KeyCons(capacity: nat, first: Deck, rest: seq<Deck>)
    ensures Key(capacity, [first] + rest) == DeckKey(capacity, first) + Key(capacity, rest)
  {
    var whole := [first] + rest;
    if rest == [] {
      assert whole[..0] == [];
    } else {
      var init, last := rest[..|rest| - 1], rest[|rest| - 1];
      assert whole[..|whole| - 1] == [first] + init && whole[|whole| - 1] == last;
      KeyCons(capacity, first, init);
      ConcatAssoc(DeckKey(capacity, first), Key(capacity, init), DeckKey(capacity, last));
    }
  }

  /** Decoding takes one deck's width off the front. */
  lemma DecodeFront(capacity: nat, part: string, tail: string)
    requires capacity >= 1
    requires |part| == 2 * capacity
    ensures DecodeKey(capacity, part + tail) == [DecodeDeck(part)] + DecodeKey(capacity, tail)
  {
    assert (part + tail)[..2 * capacity] == part;
    assert (part + tail)[2 * capacity..] == tail;
  }

  /** Decoding the key of a layout within capacity, with ranks 1..99, gives the layout back. */
  lemma {:induction false} KeyRoundTrip(capacity: nat, decks: seq<Deck>)
    requires capacity >= 1
    requires RanksNonZero(decks) && WithinCapacity(capacity, decks)
    ensures DecodeKey(capacity, Key(capacity, decks)) == decks
  {
    if decks != [] {
      var first, rest := decks[0], decks[1..];
      assert RanksNonZero(rest) && WithinCapacity(capacity, rest);
      assert NonZeroCards(first) && |first| <= capacity;
      assert decks == [first] + rest;
      KeyCons(capacity, first, rest);
      var part, tail := DeckKey(capacity, first), Key(capacity, rest);
      DeckKeyShape(capacity, first);
      DecodeDeckKey(capacity, first);
      DecodeFront(capacity, part, tail);
      KeyRoundTrip(capacity, rest);
      assert [first] + rest == decks;
    }
  }

  /** Hence the key is injective on such layouts. */
  lemma KeyInjective(capacity: nat, a: seq<Deck>, b: seq<Deck>)
    requires capacity >= 1
    requires RanksNonZero(a) && WithinCapacity(capacity, a)
    requires RanksNonZero(b) && WithinCapacity(capacity, b)
    requires Key(capacity, a) == Key(capacity, b)
    ensures a == b
  {
    KeyRoundTrip(capacity, a);
    KeyRoundTrip(capacity, b);
  }

  lemma SmallFields()
    ensures EncodeRank(7) == "07" && EncodeRank(8) == "08" && EncodeRank(9) == "09"
  {
  }

  lemma CollidingCardFields()
    ensures CardsKey([9]) == "09" && CardsKey([8, 7]) == "08" + "07"
    ensures CardsKey([9, 8]) == "09" + "08" && CardsKey([7]) == "07"
  {
    SmallFields();
    assert [8, 7][..1] == [8] && [9, 8][..1] == [9];
    assert [9][..0] == [] && [8][..0] == [] && [7][..0] == [];
  }

  lemma CollidingDeckKeys()
    ensures DeckKey(1, []) == "00" && DeckKey(1, [9]) == "09" && DeckKey(1, [8, 7]) == "08" + "07"
    ensures DeckKey(1, [9, 8]) == "09" + "08" && DeckKey(1, [7]) == "07"
  {
    CollidingCardFields();
    assert Padding(0) == "" && Padding(1) == "00";
  }

  /** The key of three decks, deck by deck. */
  lemma ThreeDeckKey(capacity: nat, a: seq<Deck>)
    requires |a| == 3
    ensures Key(capacity, a) == DeckKey(capacity, a[0]) + DeckKey(capacity, a[1]) + DeckKey(capacity, a[2])
  {
    var a1, a2 := a[..1], a[..2];
    assert a2[..1] == a1 && a1[..0] == [];
    assert Key(capacity, a1) == DeckKey(capacity, a[0]);
    assert Key(capacity, a2) == Key(capacity, a1) + DeckKey(capacity, a[1]);
  }

  /**
   * Without the capacity bound the key is not injective: with capacity 1,
   * [[], [9], [8, 7]] and [[], [9, 8], [7]] both give "00" "09" "08" "07".
   */
  lemma OverfullKeysCollide()
    ensures Key(1, [[], [9], [8, 7]]) == "00" + "09" + ("08" + "07")
    ensures Key(1, [[], [9], [8, 7]]) == Key(1, [[], [9, 8], [7]])
  {
    CollidingDeckKeys();
    ThreeDeckKey(1, [[], [9], [8, 7]]);
    ThreeDeckKey(1, [[], [9, 8], [7]]);
    ConcatAssoc("00", "09", "08");
    ConcatAssoc("00" + "09", "08", "07");
  }
}
