/** The deck: an ordered, shrinking sequence of cards that can be built,
    shuffled and dealt from. */
module Dealer {
  import opened Cards

  // ---------------------------------------------------------------------------
  // Construction order
  // ---------------------------------------------------------------------------

  /** The freshly built deck: position k holds rank k / NumSuits and suit
      k % NumSuits, so all four suits of a rank are adjacent (rank-major). */
  function FullDeck(): (s: seq<Card>)
    ensures |s| == NumCards * NumSuits == 52
  {
    seq(NumCards * NumSuits,
        k requires 0 <= k < NumCards * NumSuits =>
          Card(CardNames[k / NumSuits], SuitNames[k % NumSuits]))
  }

  /** Position i * NumSuits + j of the full deck holds rank i in suit j. */
  lemma FullDeckAt(i: int, j: int)
    requires 0 <= i < NumCards && 0 <= j < NumSuits
    ensures 0 <= i * NumSuits + j < |FullDeck()|
    ensures FullDeck()[i * NumSuits + j] == Card(CardNames[i], SuitNames[j])
  {
    var k := i * NumSuits + j;
    assert k == 4 * i + j;
    assert k / 4 == i && k % 4 == j;
  }

  /** No two positions of a sequence hold the same card. */
  predicate Distinct(s: seq<Card>) {
    forall p, q :: 0 <= p < q < |s| ==> s[p] != s[q]
  }

  /** A deck whose cards are all valid and pairwise different: what every deck
      reachable from a new one by shuffling and dealing is. */
  predicate Sound(s: seq<Card>) {
    Distinct(s) && forall c :: c in s ==> IsValidCard(c)
  }

  /** The full deck has no duplicates. */
  lemma FullDeckDistinct()
    ensures Distinct(FullDeck())
  {
    var d := FullDeck();
    NameTables();
    forall p, q | 0 <= p < q < |d| ensures d[p] != d[q] {
      var p1, p2, q1, q2 := p / NumSuits, p % NumSuits, q / NumSuits, q % NumSuits;
      assert p == p1 * NumSuits + p2 && q == q1 * NumSuits + q2;
      if p1 == q1 {
        assert p2 < q2;
      } else {
        assert p1 < q1;
        assert CardNames[p1] != CardNames[q1];
      }
    }
  }

  /** The full deck holds exactly the valid cards: no omissions, nothing else. */
  lemma FullDeckCovers(c: Card)
    ensures c in FullDeck() <==> IsValidCard(c)
  {
    if IsValidCard(c) {
      var i, j := RandomCardOnto(c);
      FullDeckAt(i, j);
    }
  }

  /** A card occurs at most once in a sequence without duplicates. */
  lemma {:induction false} DistinctCount(s: seq<Card>, c: Card)
    requires Distinct(s)
    ensures multiset(s)[c] == if c in s then 1 else 0
  {
    if s != [] {
      assert s == [s[0]] + s[1..];
      assert Distinct(s[1..]);
      DistinctCount(s[1..], c);
      if c == s[0] {
        assert c !in s[1..];
      }
    }
  }

  /** A sequence in which no card occurs twice has no duplicates. */
  lemma CountDistinct(s: seq<Card>)
    requires forall c :: multiset(s)[c] <= 1
    ensures Distinct(s)
  {
    forall p, q | 0 <= p < q < |s| ensures s[p] != s[q] {
      var pre := s[..q];
      assert s == pre + [s[q]] + s[q + 1..];
      assert pre[p] == s[p];
      assert multiset(s)[s[q]] == multiset(pre)[s[q]] + 1 + multiset(s[q + 1..])[s[q]];
      assert multiset(pre)[s[p]] >= 1;
    }
  }

  /** A new deck contains every valid card exactly once and no other card. */
  lemma FullDeckExactlyOnce(c: Card)
    ensures multiset(FullDeck())[c] == if IsValidCard(c) then 1 else 0
  {
    FullDeckDistinct();
    FullDeckCovers(c);
    DistinctCount(FullDeck(), c);
  }

  /** A new deck is sound: valid cards, no duplicates. */
  lemma FullDeckSound()
    ensures Sound(FullDeck())
  {
    FullDeckDistinct();
    forall c | c in FullDeck() ensures IsValidCard(c) {
      FullDeckCovers(c);
    }
  }

  // ---------------------------------------------------------------------------
  // Shuffling
  // ---------------------------------------------------------------------------

  /** `js` is a sequence of shuffle choices for n cards: the step at position i
      swaps it with position js[i], drawn from [0, i]. (js[0] is necessarily 0.) */
  predicate IsChoice(js: seq<int>, n: nat) {
    |js| == n && forall i :: 0 <= i < n ==> 0 <= js[i] <= i
  }

  /** A non-empty sequence is its front followed by its last element. */
  lemma SplitLast<T>(t: seq<T>)
    requires |t| > 0
    ensures t == t[..|t| - 1] + [t[|t| - 1]]
    ensures multiset(t) == multiset(t[..|t| - 1]) + multiset{t[|t| - 1]}
  {
    assert t == t[..|t| - 1] + [t[|t| - 1]];
  }

  /** `s` with the cards at positions i and j exchanged. */
  function Swap(s: seq<Card>, i: nat, j: nat): (r: seq<Card>)
    requires i < |s| && j < |s|
    ensures |r| == |s| && r[i] == s[j] && r[j] == s[i]
    ensures forall k :: 0 <= k < |s| && k != i && k != j ==> r[k] == s[k]
  {
    s[i := s[j]][j := s[i]]
  }

  /** A swap neither adds nor drops a card. */
  lemma SwapPermutes(s: seq<Card>, i: nat, j: nat)
    requires i < |s| && j < |s|
    ensures multiset(Swap(s, i, j)) == multiset(s)
  {
  }

  /** The order the shuffle produces from `s` with choices `js`: position
      |s|-1 is swapped with js[|s|-1] and then stays put, and the remaining
      prefix is shuffled the same way. */
  function Shuffled(s: seq<Card>, js: seq<int>): (r: seq<Card>)
    requires IsChoice(js, |s|)
    ensures |r| == |s|
    decreases |s|
  {
    if |s| <= 1 then s
    else
      var n := |s| - 1;
      var t := Swap(s, n, js[n]);
      Shuffled(t[..n], js[..n]) + [t[n]]
  }

  /** One unfolding of Shuffled: the last position receives the card chosen for
      it, and what the swap left before it is shuffled with the earlier choices. */
  lemma ShuffledUnfold(s: seq<Card>, js: seq<int>)
    requires |s| > 1 && IsChoice(js, |s|)
    ensures IsChoice(js[..|s| - 1], |s| - 1)
    ensures Shuffled(s, js)
         == Shuffled(Swap(s, |s| - 1, js[|s| - 1])[..|s| - 1], js[..|s| - 1]) + [s[js[|s| - 1]]]
  {
  }

  /** The shuffle is a permutation: it neither adds, drops nor duplicates a card. */
  lemma {:induction false} ShuffledPermutes(s: seq<Card>, js: seq<int>)
    requires IsChoice(js, |s|)
    ensures multiset(Shuffled(s, js)) == multiset(s)
    decreases |s|
  {
    if |s| > 1 {
      var n := |s| - 1;
      var t := Swap(s, n, js[n]);
      ShuffledUnfold(s, js);
      ShuffledPermutes(t[..n], js[..n]);
      SwapPermutes(s, n, js[n]);
      SplitLast(t);
    }
  }

  /** Two orderings of the same cards that agree on the last card agree, as
      multisets, on the cards before it. */
  lemma DropLastPermutes(u: seq<Card>, t: seq<Card>)
    requires |u| == |t| > 0 && multiset(u) == multiset(t) && u[|u| - 1] == t[|t| - 1]
    ensures multiset(u[..|u| - 1]) == multiset(t[..|t| - 1])
  {
    SplitLast(u);
    SplitLast(t);
    assert multiset(u[..|u| - 1]) == multiset(u) - multiset{u[|u| - 1]};
  }

  /** Appending a choice for the next position extends a choice sequence. */
  lemma ChoiceExtend(js: seq<int>, j: int)
    requires IsChoice(js, |js|) && 0 <= j <= |js|
    ensures IsChoice(js + [j], |js| + 1)
    ensures (js + [j])[..|js|] == js && (js + [j])[|js|] == j
  {
  }

  /** If choosing j for the last position puts t's last card there, and the
      earlier choices arrange what is left as t's front, the shuffle yields t. */
  lemma ShuffledPlace(s: seq<Card>, t: seq<Card>, rest: seq<int>, j: int)
    requires |s| > 1 && |t| == |s| && 0 <= j < |s| && s[j] == t[|s| - 1]
    requires IsChoice(rest, |s| - 1)
    requires Shuffled(Swap(s, |s| - 1, j)[..|s| - 1], rest) == t[..|s| - 1]
    ensures IsChoice(rest + [j], |s|) && Shuffled(s, rest + [j]) == t
  {
    var n := |s| - 1;
    ChoiceExtend(rest, j);
    ShuffledUnfold(s, rest + [j]);
    SplitLast(t);
  }

  /** For a rearrangement t of s, a position j whose card t ends with; swapping
      it to the end leaves a front that is a rearrangement of t's front. */
  lemma ChooseLast(s: seq<Card>, t: seq<Card>) returns (j: nat)
    requires |s| > 1 && multiset(t) == multiset(s)
    ensures j < |s| == |t| && s[j] == t[|s| - 1]
    ensures multiset(Swap(s, |s| - 1, j)[..|s| - 1]) == multiset(t[..|s| - 1])
  {
    assert |t| == |multiset(t)| == |s|;
    var n := |s| - 1;
    assert t[n] in multiset(s);
    j :| 0 <= j < |s| && s[j] == t[n];
    SwapPermutes(s, n, j);
    DropLastPermutes(Swap(s, n, j), t);
  }

  /** Every ordering of the cards is produced by some choice sequence. */
  lemma {:induction false} ShuffledOnto(s: seq<Card>, t: seq<Card>) returns (js: seq<int>)
    requires multiset(t) == multiset(s)
    ensures IsChoice(js, |s|) && Shuffled(s, js) == t
    decreases |s|
  {
    assert |t| == |multiset(t)| == |s|;
    if |s| <= 1 {
      assert |s| == 1 ==> t[0] in multiset(s);
      js := if |s| == 0 then [] else [0];
    } else {
      var n := |s| - 1;
      var j := ChooseLast(s, t);
      var u := Swap(s, n, j);
      var rest := ShuffledOnto(u[..n], t[..n]);
      js := rest + [j];
      ShuffledPlace(s, t, rest, j);
    }
  }

  /** Swapping two cards keeps a sequence free of duplicates. */
  lemma SwapDistinct(s: seq<Card>, i: nat, j: nat)
    requires Distinct(s) && i < |s| && j < |s|
    ensures Distinct(Swap(s, i, j))
  {
    var r := Swap(s, i, j);
    forall c ensures multiset(r)[c] <= 1 {
      DistinctCount(s, c);
    }
    CountDistinct(r);
  }

  /** On distinct cards, different choice sequences give different orders; with
      ShuffledOnto, the choice sequences and the orderings correspond one to one. */
  lemma {:induction false} ShuffledOneToOne(s: seq<Card>, js1: seq<int>, js2: seq<int>)
    requires Distinct(s) && IsChoice(js1, |s|) && IsChoice(js2, |s|)
    requires Shuffled(s, js1) == Shuffled(s, js2)
    ensures js1 == js2
    decreases |s|
  {
    if |s| == 1 {
      assert js1 == [0] == js2;
    } else if |s| > 1 {
      var n := |s| - 1;
      var a, b := js1[n], js2[n];
      var u := Swap(s, n, a);
      ShuffledUnfold(s, js1);
      ShuffledUnfold(s, js2);
      var r := Shuffled(s, js1);
      assert r[n] == s[a] && r[n] == s[b];
      assert a == b;
      assert Shuffled(u[..n], js1[..n]) == r[..n] == Shuffled(u[..n], js2[..n]);
      SwapDistinct(s, n, a);
      SliceDistinct(u, 0, n);
      assert u[0..n] == u[..n];
      ShuffledOneToOne(u[..n], js1[..n], js2[..n]);
      SplitLast(js1);
      SplitLast(js2);
    }
  }

  /** Shuffling keeps a sound deck sound. */
  lemma ShuffledSound(s: seq<Card>, js: seq<int>)
    requires Sound(s) && IsChoice(js, |s|)
    ensures Sound(Shuffled(s, js))
  {
    var r := Shuffled(s, js);
    ShuffledPermutes(s, js);
    forall c ensures multiset(r)[c] <= 1 {
      DistinctCount(s, c);
    }
    CountDistinct(r);
    forall c | c in r ensures IsValidCard(c) {
      assert c in multiset(r);
    }
  }

  /** A shuffled new deck still holds every valid card exactly once. */
  lemma ShuffledFullDeck(js: seq<int>, c: Card)
    requires IsChoice(js, NumCards * NumSuits)
    ensures multiset(Shuffled(FullDeck(), js))[c] == if IsValidCard(c) then 1 else 0
  {
    ShuffledPermutes(FullDeck(), js);
    FullDeckExactlyOnce(c);
  }

  // ---------------------------------------------------------------------------
  // The shuffle as a loop: the order Go's rand.Shuffle runs its swaps in
  // ---------------------------------------------------------------------------

  /** The final order of `w` once positions i+1 and beyond are settled: the
      unsettled front w[..i+1] is still to be shuffled with its choices. */
  ghost function Pending(w: seq<Card>, js: seq<int>, i: int): seq<Card>
    requires -1 <= i < |w| && IsChoice(js, |w|)
  {
    Shuffled(w[..i + 1], js[..i + 1]) + w[i + 1..]
  }

  /** Swapping two positions at or after `lo` swaps them in the suffix from
      `lo` and leaves the prefix before `lo` alone. */
  lemma SwapSlice(t: seq<Card>, lo: nat, i: nat, j: nat)
    requires lo + i < |t| && lo + j < |t|
    ensures Swap(t, lo + i, lo + j)[lo..] == Swap(t[lo..], i, j)
    ensures Swap(t, lo + i, lo + j)[..lo] == t[..lo]
  {
  }

  /** The shuffle as the loop runs it: positions i, i-1, ..., 1 of `w` in turn
      are swapped with their choices. */
  function ShuffleFrom(w: seq<Card>, js: seq<int>, i: int): (r: seq<Card>)
    requires -1 <= i < |w| && IsChoice(js, |w|)
    ensures |r| == |w|
    decreases i
  {
    if i <= 0 then w else ShuffleFrom(Swap(w, i, js[i]), js, i - 1)
  }

  /** Running the loop from position i gives the order Pending describes. */
  lemma {:induction false} ShuffleFromPending(w: seq<Card>, js: seq<int>, i: int)
    requires -1 <= i < |w| && IsChoice(js, |w|)
    ensures ShuffleFrom(w, js, i) == Pending(w, js, i)
    decreases i
  {
    if i <= 0 {
      PendingBounds(w, js);
    } else {
      var next := Swap(w, i, js[i]);
      assert ShuffleFrom(w, js, i) == ShuffleFrom(next, js, i - 1);
      ShuffleFromPending(next, js, i - 1);
      ShuffleStep(w, js, i);
    }
  }

  /** The loop's swaps, from the last position down, produce Shuffled. */
  lemma ShuffleFromIsShuffled(s: seq<Card>, js: seq<int>)
    requires IsChoice(js, |s|)
    ensures ShuffleFrom(s, js, |s| - 1) == Shuffled(s, js)
  {
    ShuffleFromPending(s, js, |s| - 1);
    PendingBounds(s, js);
  }

  /** When the loop has reached position 0, the cards it holds are the
      shuffled order, a permutation of the cards it started from. */
  lemma ShuffleDone(s: seq<Card>, js: seq<int>, c: seq<Card>, i: int)
    requires IsChoice(js, |s|) && |c| == |s| && -1 <= i <= 0 && i < |s|
    requires ShuffleFrom(c, js, i) == ShuffleFrom(s, js, |s| - 1)
    ensures c == Shuffled(s, js)
    ensures multiset(c) == multiset(s)
    ensures Sound(s) ==> Sound(c)
  {
    ShuffleFromIsShuffled(s, js);
    ShuffledPermutes(s, js);
    if Sound(s) {
      ShuffledSound(s, js);
    }
  }

  /** Before the loop nothing is settled; once at most one position is left
      unsettled, the order is final. */
  lemma PendingBounds(w: seq<Card>, js: seq<int>)
    requires IsChoice(js, |w|)
    ensures Pending(w, js, |w| - 1) == Shuffled(w, js)
    ensures |w| > 0 ==> Pending(w, js, 0) == w
    ensures Pending(w, js, -1) == w
  {
    assert w[..|w|] == w && js[..|w|] == js && w[|w|..] == [];
    if |w| > 0 {
      assert w == w[..1] + w[1..];
    }
    assert w[..0] == [] && w[0..] == w;
  }

  /** One step of the shuffle loop: swapping position i of `cur` with its
      choice settles position i and leaves the final order unchanged. */
  lemma ShuffleStep(cur: seq<Card>, js: seq<int>, i: nat)
    requires 0 < i < |cur| && IsChoice(js, |cur|)
    ensures Pending(cur, js, i) == Pending(Swap(cur, i, js[i]), js, i - 1)
  {
    var p, ks, next := cur[..i + 1], js[..i + 1], Swap(cur, i, js[i]);
    ShuffledUnfold(p, ks);
    SwapPrefix(cur, i, js[i]);
    assert ks[..i] == js[..i];
    var a := Shuffled(next[..i], js[..i]);
    assert Pending(cur, js, i) == (a + [cur[js[i]]]) + cur[i + 1..];
    assert Pending(next, js, i - 1) == a + ([cur[js[i]]] + cur[i + 1..]);
  }

  /** Swapping position i of `t` with an earlier one: the positions before i
      are those of the same swap on the prefix up to i, and from i on the
      chosen card is followed by the untouched rest. */
  lemma SwapPrefix(t: seq<Card>, i: nat, j: nat)
    requires j <= i < |t|
    ensures Swap(t[..i + 1], i, j)[..i] == Swap(t, i, j)[..i]
    ensures Swap(t, i, j)[i..] == [t[j]] + t[i + 1..]
  {
  }

  // ---------------------------------------------------------------------------
  // Dealing
  // ---------------------------------------------------------------------------

  /** Dealing `size` cards from `cards` gives (hand, rest): the hand is the
      front of the deck, clamped to the cards available, and the rest follows. */
  function Deal(cards: seq<Card>, size: nat): (r: (seq<Card>, seq<Card>))
    ensures r.0 + r.1 == cards
    ensures |r.0| == if size > |cards| then |cards| else size
  {
    var n := if size > |cards| then |cards| else size;
    (cards[..n], cards[n..])
  }

  /** Dealing a and then b cards deals the same cards, in the same order, as
      dealing a + b cards at once, and leaves the same deck. */
  lemma DealTwice(cards: seq<Card>, a: nat, b: nat)
    ensures Deal(cards, a).0 + Deal(Deal(cards, a).1, b).0 == Deal(cards, a + b).0
    ensures Deal(Deal(cards, a).1, b).1 == Deal(cards, a + b).1
  {
    var na := if a > |cards| then |cards| else a;
    var nb := if b > |cards| - na then |cards| - na else b;
    assert Deal(cards, a) == (cards[..na], cards[na..]);
    assert Deal(cards[na..], b) == (cards[na..][..nb], cards[na..][nb..]);
    assert Deal(cards, a + b) == (cards[..na + nb], cards[na + nb..]);
    assert cards[..na] + cards[na..][..nb] == cards[..na + nb];
    assert cards[na..][nb..] == cards[na + nb..];
  }

  /** A window of a sequence without duplicates has none either. */
  lemma SliceDistinct(s: seq<Card>, a: nat, b: nat)
    requires Distinct(s) && a <= b <= |s|
    ensures Distinct(s[a..b])
  {
    var w := s[a..b];
    forall p, q | 0 <= p < q < |w| ensures w[p] != w[q] {
      assert w[p] == s[a + p] && w[q] == s[a + q];
    }
  }

  /** Dealing from a sound deck splits it into two sound parts that share no card. */
  lemma DealSound(cards: seq<Card>, size: nat)
    requires Sound(cards)
    ensures Sound(Deal(cards, size).0) && Sound(Deal(cards, size).1)
    ensures forall c :: c in Deal(cards, size).0 ==> c !in Deal(cards, size).1
  {
    var (hand, rest) := Deal(cards, size);
    var n := |hand|;
    assert hand == cards[..n] && rest == cards[n..];
    SliceDistinct(cards, 0, n);
    SliceDistinct(cards, n, |cards|);
    assert cards[0..n] == hand && cards[n..|cards|] == rest;
    forall c | c in hand ensures c !in rest && IsValidCard(c) {
      var p :| 0 <= p < n && hand[p] == c;
      assert cards[p] == c;
      forall q | 0 <= q < |rest| ensures rest[q] != c {
        assert rest[q] == cards[n + q];
      }
    }
    forall c | c in rest ensures IsValidCard(c) {
      var q :| 0 <= q < |rest| && rest[q] == c;
      assert cards[n + q] == c;
    }
  }

  // ---------------------------------------------------------------------------
  // The deck object
  // ---------------------------------------------------------------------------

  /** A deck. The program keeps a slice of cards; a slice is a window on a
      backing array, so the deck is buf[lo..], and dealing moves `lo` forward
      without copying, as reslicing does. */
  class Deck {
    var buf: array<Card>
    var lo: nat

    ghost predicate Valid()
      reads this
    {
      lo <= buf.Length
    }

    /** The cards remaining in the deck, top first. */
    function Cards(): seq<Card>
      reads this, buf
      requires Valid()
    {
      buf[lo..]
    }

    /** A deck viewing the whole of `cards`. */
    constructor (cards: array<Card>)
      ensures Valid() && buf == cards && lo == 0
      ensures Cards() == cards[..]
    {
      buf := cards;
      lo := 0;
    }

    /** The exchange the shuffle is handed: swaps the cards at positions `i`
        and `j` of the deck. */
    method Exchange(i: nat, j: nat)
      requires Valid() && i < |Cards()| && j < |Cards()|
      modifies buf
      ensures Valid() && Cards() == Swap(old(Cards()), i, j)
      ensures buf[..lo] == old(buf[..lo])
    {
      ghost var whole := buf[..];
      buf[lo + i], buf[lo + j] := buf[lo + j], buf[lo + i];
      assert buf[..] == Swap(whole, lo + i, lo + j);
      SwapSlice(whole, lo, i, j);
    }

    /** Shuffles the deck in place with the given choices: for each position i
        from the last down to 1, exchange it with position js[i]. */
    method Shuffle(js: seq<int>)
      requires Valid() && IsChoice(js, |Cards()|)
      modifies buf
      ensures Valid() && lo == old(lo)
      ensures Cards() == Shuffled(old(Cards()), js)
      ensures multiset(Cards()) == multiset(old(Cards()))
      ensures old(Sound(Cards())) ==> Sound(Cards())
      ensures buf[..lo] == old(buf[..lo])
    {
      ghost var s := Cards();
      var n := buf.Length - lo;
      var i := n - 1;
      ghost var goal := ShuffleFrom(s, js, i);
      while i > 0
        invariant -1 <= i < n && (n > 0 ==> 0 <= i)
        invariant lo + n == buf.Length && |js| == n
        invariant Valid() && buf[..lo] == old(buf[..lo])
        invariant ShuffleFrom(Cards(), js, i) == goal
        decreases i
      {
        ghost var cur := Cards();
        Exchange(i, js[i]);
        assert ShuffleFrom(cur, js, i) == ShuffleFrom(Cards(), js, i - 1);
        i := i - 1;
      }
      ShuffleDone(s, js, Cards(), i);
    }

    /** Deals a hand of `size` cards from the top of the deck and removes them.
        A request beyond the cards left is clamped to what is left, and
        `clamped` reports it. A negative size is not allowed: the program would
        fail allocating the hand. */
    method DealHand(size: int) returns (hand: array<Card>, clamped: bool)
      requires Valid() && 0 <= size
      modifies this
      ensures Valid() && buf == old(buf)
      ensures fresh(hand)
      ensures clamped <==> size > |old(Cards())|
      ensures hand[..] == Deal(old(Cards()), size).0
      ensures Cards() == Deal(old(Cards()), size).1
      ensures old(Sound(Cards())) ==> Sound(hand[..]) && Sound(Cards())
    {
      ghost var before := Cards();
      var n := size;
      clamped := false;
      if n > buf.Length - lo {
        n := buf.Length - lo;
        clamped := true;
      }
      hand := new Card[n];
      for i := 0 to n
        invariant buf == old(buf) && lo == old(lo)
        invariant forall k :: 0 <= k < i ==> hand[k] == before[k]
      {
        hand[i] := buf[lo + i];
      }
      assert hand[..] == before[..n];
      lo := lo + n;
      assert Cards() == before[n..];
      if Sound(before) {
        DealSound(before, size);
      }
    }
  }

  /** Builds the full deck, rank by rank and, within a rank, suit by suit. */
  method NewDeck() returns (d: Deck)
    ensures fresh(d) && fresh(d.buf) && d.Valid()
    ensures d.Cards() == FullDeck()
  {
    var deck := new Card[NumCards * NumSuits];
    ghost var full := FullDeck();
    // Rows of NumSuits == 4 cards; the invariants use the literal so that
    // the index arithmetic stays linear.
    for i := 0 to NumCards
      invariant deck[..4 * i] == full[..4 * i]
    {
      assert i * NumSuits == 4 * i;
      for j := 0 to NumSuits
        invariant deck[..4 * i + j] == full[..4 * i + j]
      {
        FullDeckAt(i, j);
        deck[i * NumSuits + j] := Card(CardNames[i], SuitNames[j]);
      }
    }
    assert deck[..] == full;
    d := new Deck(deck);
  }
}
