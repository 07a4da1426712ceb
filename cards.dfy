/** Playing cards: a card is an immutable pair of a rank name and a suit name,
    each drawn from a fixed table. */
module Cards {

  datatype Option<T> = None | Some(value: T)

  /** A card. As in the program, the rank name is held in the field `card`. */
  datatype Card = Card(card: string, suit: string)

  const NumCards := 13
  const NumSuits := 4

  /** The rank names, in canonical order. */
  const CardNames: seq<string> :=
    ["Ace", "Two", "Three", "Four", "Five", "Six", "Seven",
     "Eight", "Nine", "Ten", "Jack", "Queen", "King"]

  /** The suit names, in canonical order. */
  const SuitNames: seq<string> := ["Spades", "Hearts", "Diamonds", "Clubs"]

  /** A card whose rank and suit both come from the tables. */
  predicate IsValidCard(c: Card) {
    c.card in CardNames && c.suit in SuitNames
  }

  /** The tables have the declared sizes, hold pairwise distinct names,
      and no rank name contains a space. */
  lemma NameTables()
    ensures |CardNames| == NumCards && |SuitNames| == NumSuits
    ensures forall i, j :: 0 <= i < j < NumCards ==> CardNames[i] != CardNames[j]
    ensures forall i, j :: 0 <= i < j < NumSuits ==> SuitNames[i] != SuitNames[j]
    ensures forall i :: 0 <= i < NumCards ==> ' ' !in CardNames[i]
  {
  }

  /** The card drawn for rank index `card` and suit index `suit`; the program
      draws both indices at random, here they are parameters. */
  function RandomCard(card: int, suit: int): (c: Card)
    requires 0 <= card < NumCards && 0 <= suit < NumSuits
    ensures IsValidCard(c)
  {
    Card(CardNames[card], SuitNames[suit])
  }

  /** Every valid card is drawn by some pair of indices. */
  lemma RandomCardOnto(c: Card) returns (card: int, suit: int)
    requires IsValidCard(c)
    ensures 0 <= card < NumCards && 0 <= suit < NumSuits
    ensures RandomCard(card, suit) == c
  {
    var i :| 0 <= i < |CardNames| && CardNames[i] == c.card;
    var j :| 0 <= j < |SuitNames| && SuitNames[j] == c.suit;
    card, suit := i, j;
  }

  /** Different index pairs draw different cards. */
  lemma RandomCardOneToOne(card1: int, suit1: int, card2: int, suit2: int)
    requires 0 <= card1 < NumCards && 0 <= suit1 < NumSuits
    requires 0 <= card2 < NumCards && 0 <= suit2 < NumSuits
    requires RandomCard(card1, suit1) == RandomCard(card2, suit2)
    ensures card1 == card2 && suit1 == suit2
  {
    NameTables();
  }

  /** The text a card prints: "<rank> of <suit>". */
  function Text(c: Card): (t: string)
    ensures |t| == |c.card| + 4 + |c.suit|
    ensures t[..|c.card|] == c.card && t[|c.card|..|c.card| + 4] == " of "
    ensures t[|c.card| + 4..] == c.suit
  {
    c.card + " of " + c.suit
  }

  /** Index of the first space in `t`, or |t| when there is none. */
  function FirstSpace(t: string): (k: nat)
    ensures k <= |t|
    ensures k < |t| ==> t[k] == ' '
    ensures forall i :: 0 <= i < k ==> t[i] != ' '
  {
    if t == [] || t[0] == ' ' then 0 else 1 + FirstSpace(t[1..])
  }

  /** Reads a card back from its text: the rank runs up to the first space,
      which must start " of "; the suit is the rest. */
  function ParseText(t: string): (r: Option<Card>)
    ensures r.Some? ==> Text(r.value) == t
  {
    var k := FirstSpace(t);
    if k + 4 <= |t| && t[k..k + 4] == " of " then
      Some(Card(t[..k], t[k + 4..]))
    else
      None
  }

  /** A card whose rank name has no space is recovered from its text. */
  lemma TextRoundTrip(c: Card)
    requires ' ' !in c.card
    ensures ParseText(Text(c)) == Some(c)
  {
    var t := Text(c);
    var n := |c.card|;
    assert t[n] == ' ';
    assert forall i :: 0 <= i < n ==> t[i] == c.card[i];
    assert FirstSpace(t) == n;
    assert t[n..n + 4] == " of ";
    assert t[..n] == c.card;
    assert t[n + 4..] == c.suit;
  }

  /** Distinct valid cards print distinct texts. */
  lemma TextInjective(c1: Card, c2: Card)
    requires IsValidCard(c1) && IsValidCard(c2)
    requires Text(c1) == Text(c2)
    ensures c1 == c2
  {
    NameTables();
    TextRoundTrip(c1);
    TextRoundTrip(c2);
  }
}
