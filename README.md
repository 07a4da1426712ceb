# Cards: a deck of playing cards, modelled in Dafny

The program models a deck of 52 playing cards. A card is a pair of names: a rank (Ace to King) and a suit (Spades, Hearts, Diamonds, Clubs), each taken from a fixed table. A new deck holds every rank in every suit, built rank by rank and, within a rank, suit by suit. The deck can be shuffled in place. Hands are dealt from its top. A request for more cards than remain is clamped to what is left, and the deck shrinks as it is dealt from.

The project has three modules:

- `Cards` (`cards.dfy`) covers the card value, the name tables, the card drawn from a pair of indices, and the card's text `"<rank> of <suit>"` together with its parser.
- `Dealer` (`dealer.dfy`) covers the deck. The construction order is `FullDeck`. The shuffle is specified by the recursive function `Shuffled` and, as the loop runs it, by `ShuffleFrom`. Dealing is the function `Deal`. The class `Deck` holds a backing array `buf` and an offset `lo`, so the deck is `buf[lo..]`, as a Go slice is a window on its array. Its methods swap inside the array and deal by copying the front and moving `lo`.
- `Casino` (`casino.dfy`) runs the program's session over the model: new deck, shuffle, deal 50, deal 10, then one more card from the empty deck.

The randomness is passed in as data:

- `RandomCard` takes its rank and suit indices as parameters.
- `Deck.Shuffle` takes a choice sequence `js`. The swap at position `i` exchanges it with position `js[i]`, where `0 <= js[i] <= i`. This is the order in which Go's `rand.Shuffle` makes its swaps: from the last position down to position 1.

The model proves that the choice sequences and the orderings of a deck with distinct cards are in one-to-one correspondence. `ShuffledOnto` shows that every ordering is reached, and `ShuffledOneToOne` shows that no two choice sequences give the same ordering. If each choice `js[i]` is drawn uniformly and independently from [0, i], every ordering is therefore equally likely. That assumption is about the library's random source and is not part of the model.

## Model

| member | source | states |
|---|---|---|
| Cards.NameTables | cards/cards.go:16-21 | The tables have 13 and 4 entries, hold pairwise distinct names, and no rank name contains a space |
| Cards.RandomCard | cards/cards.go:23-28 | For rank index in [0,13) and suit index in [0,4), the card drawn is a valid card (rank in the rank table, suit in the suit table) |
| Cards.RandomCardOnto | cards/cards.go:23-28 | Every valid card is drawn by some pair of in-range indices |
| Cards.RandomCardOneToOne | cards/cards.go:23-28 | Different index pairs draw different cards |
| Cards.Text | cards/cards.go:13 | The text is the rank, then " of ", then the suit, each piece at its own position; ParseText inverts it (TextRoundTrip) and it is injective on valid cards (TextInjective) |
| Cards.ParseText | cards/cards.go:12-14 | Whatever the parser accepts renders back to the same text |
| Cards.TextRoundTrip | cards/cards.go:12-14 | The text of a card whose rank has no space parses back to that card |
| Cards.TextInjective | cards/cards.go:12-14 | Distinct valid cards print distinct texts |
| Dealer.FullDeck | cards/dealer.go:44-53 | The new deck's order has NUM_CARDS * NUM_SUITS = 52 cards |
| Dealer.FullDeckAt | cards/dealer.go:46-49 | Position i*NUM_SUITS+j of the new deck holds rank i in suit j (rank-major order) |
| Dealer.FullDeckDistinct | cards/dealer.go:44-53 | The new deck has no duplicate card |
| Dealer.FullDeckCovers | cards/dealer.go:44-53 | A card is in the new deck if and only if it is a valid card |
| Dealer.FullDeckExactlyOnce | cards/dealer.go:44-53 | Every valid card occurs exactly once in the new deck, and no other card occurs |
| Dealer.FullDeckSound | cards/dealer.go:44-53 | The new deck is sound: distinct, valid cards |
| Dealer.Swap | cards/dealer.go:13-15 | The exchange keeps the length, puts each of the two cards at the other's position and leaves every other position unchanged |
| Dealer.SwapPermutes | cards/dealer.go:13-15 | An exchange neither adds nor drops a card (same multiset) |
| Dealer.Shuffled | cards/dealer.go:12-16 | The shuffled order has the length of the deck |
| Dealer.ShuffledUnfold | cards/dealer.go:12-16 | The last position receives the card chosen for it, and the rest is shuffled with the earlier choices |
| Dealer.ShuffledPermutes | cards/dealer.go:12-16 | The shuffle preserves the multiset of cards |
| Dealer.ShuffledOnto | cards/dealer.go:12-16 | Every rearrangement of the cards is produced by some choice sequence |
| Dealer.ShuffledOneToOne | cards/dealer.go:12-16 | On distinct cards, equal shuffled orders come from equal choice sequences |
| Dealer.ShuffledSound | cards/dealer.go:12-16 | Shuffling keeps a sound deck sound |
| Dealer.ShuffledFullDeck | cards/dealer.go:12-16 | A shuffled new deck still holds every valid card exactly once and nothing else |
| Dealer.ShuffleFrom | cards/dealer.go:12-16 | Running the swaps from position i down keeps the length |
| Dealer.ShuffleFromIsShuffled | cards/dealer.go:12-16 | The loop's swaps, from the last position down to 1, produce exactly the order Shuffled specifies |
| Dealer.ShuffleDone | cards/dealer.go:12-16 | When the loop has run down to position 0, the deck holds the shuffled order, a permutation of the starting cards, and is sound if the start was |
| Dealer.Deal | cards/dealer.go:29-42 | Hand followed by the rest is the old deck, and the hand has min(size, cards left) cards |
| Dealer.DealTwice | cards/dealer.go:29-42 | Dealing a then b cards hands out the same cards, in order, and leaves the same deck as dealing a + b at once |
| Dealer.DealSound | cards/dealer.go:29-42 | Dealing from a sound deck gives a sound hand and a sound rest that share no card |
| Dealer.Deck.constructor | cards/dealer.go:52 | The deck views the whole slice it is built from |
| Dealer.Deck.Exchange | cards/dealer.go:13-15 | The cards at the two positions are swapped in place; the array outside the deck's window is untouched |
| Dealer.Deck.Shuffle | cards/dealer.go:12-16 | The deck becomes Shuffled(old deck, js): same window, same multiset, sound if it was sound, the array before the window untouched |
| Dealer.Deck.DealHand | cards/dealer.go:29-42 | Clamped exactly when size exceeds the cards left; the new hand and the remaining deck are Deal(old deck, size); a sound deck gives a sound hand and deck |
| Dealer.NewDeck | cards/dealer.go:44-53 | A fresh deck over a fresh array whose cards are exactly FullDeck() |
| Casino.Session | cards/main.go:10-19 | The two hands have 50 and 2 cards and together are the shuffled new deck; the second and third requests are clamped; the third hand and the final deck are empty |

## Left out

- `Deck.read` (cards/dealer.go:18-23) prints the deck, and the `Println` in `Card.read` (cards/cards.go:12-14) prints a card. They are I/O. The text itself is the function `Text`, and the deck's contents are `Deck.Cards`.
- The notice printed when a deal is clamped (cards/dealer.go:33) is I/O. It becomes the `clamped` result of `Deck.DealHand`.
- `Deck.DealHand`: a negative size is excluded by its precondition, because Go's `make` panics on a negative length (cards/dealer.go:36).
- `math/rand` is library code. The indices of `randomCard` and the choices of `rand.Shuffle` are parameters, and the model does not state uniformity, which is a probabilistic property. The bijection between choice sequences and orderings is proved instead.
- `Cards.TextRoundTrip` requires the rank name to contain no space. This holds for every name in the table (`Cards.NameTables`), but not for arbitrary strings.
- cards/main.go is program glue. It is represented by `Casino.Session`, which returns the hands instead of printing them, and which also asks the empty deck for one more card.
- The question in the comment at cards/dealer.go:9 of whether the slice should be fixed-size is not modelled: the backing array keeps its size, and the deck is the window `buf[lo..]`.
- Go's value receiver on `shuffle` is not modelled separately from the pointer receiver on `dealHand`. The copy of `Deck` shares the slice's backing array, so in both cases the model mutates the one deck object.
