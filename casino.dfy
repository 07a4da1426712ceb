/** The program's session, run over the model: a new deck is shuffled, a hand
    of 50 is dealt, and a hand of 10 is asked for when only 2 cards are left. */
module Casino {
  import opened Cards
  import opened Dealer

  /** Plays the session with shuffle choices `js`, then asks an empty deck for
      one more card. Returns the three hands, whether each request was clamped,
      and the number of cards left. The two hands together are the whole
      shuffled deck, so by ShuffledPermutes and FullDeckExactlyOnce they hold
      every valid card exactly once. */
  method Session(js: seq<int>)
    returns (first: seq<Card>, second: seq<Card>, third: seq<Card>,
             clamps: seq<bool>, left: nat)
    requires IsChoice(js, NumCards * NumSuits)
    ensures |first| == 50 && |second| == 2 && third == [] && left == 0
    ensures clamps == [false, true, true]
    ensures first + second == Shuffled(FullDeck(), js)
  {
    var deck := NewDeck();
    deck.Shuffle(js);
    ghost var shuffled := deck.Cards();
    assert |shuffled| == 52;
    var h1, c1 := deck.DealHand(50);
    first := h1[..];
    ghost var rest := deck.Cards();
    assert first + rest == shuffled && |rest| == 2;
    var h2, c2 := deck.DealHand(10);
    second := h2[..];
    assert second == rest && deck.Cards() == [];
    var h3, c3 := deck.DealHand(1);
    third := h3[..];
    clamps := [c1, c2, c3];
    left := |deck.Cards()|;
  }
}
