/** The "7-bag" randomizer behind `init_bag` and `new_piece`. The shuffle is
    not modelled as a distribution: a refill takes whatever permutation of the
    seven names the shuffle produced, passed in as `deck`. */
module Bag {
  import opened Shapes

  /** `deck` is a permutation of the table's keys `list(SHAPES.keys())`: seven
      entries, among which every key occurs. */
  predicate IsShuffle(deck: seq<ShapeName>)
  {
    |deck| == 7 && forall s :: s in AllShapes ==> s in deck
  }

  /** A shuffle holds each name exactly once. */
  lemma ShuffleMultiset(deck: seq<ShapeName>)
    requires IsShuffle(deck)
    ensures multiset(deck) == AllNames
  {
    var ms := multiset(deck);
    assert AllNames <= ms by {
      forall s: ShapeName ensures AllNames[s] <= ms[s] {
        AllShapesOnce(s);
        assert s in AllShapes;
      }
    }
    var rest := ms - AllNames;
    assert ms == AllNames + rest;
    assert |ms| == |deck| == 7;
    assert |AllNames| == 7;
    assert |rest| == 0;
  }

  /** What the bag and the buffered next name may hold between draws: fewer than
      seven names left in the bag, and no name twice among the bag and the next. */
  predicate BagOk(bag: seq<ShapeName>, next: ShapeName)
  {
    |bag| < 7 && multiset(bag + [next]) <= AllNames
  }

  /** One draw: refill with `deck` if the bag is empty, then pop the last name.
      The result is the drawn name and the bag that remains. */
  function Draw(bag: seq<ShapeName>, deck: seq<ShapeName>): (r: (ShapeName, seq<ShapeName>))
    requires deck != []
    ensures bag != [] ==> r.1 + [r.0] == bag
    ensures bag == [] ==> r.1 + [r.0] == deck
  {
    var b := if bag == [] then deck else bag;
    (b[|b| - 1], b[..|b| - 1])
  }

  /** A draw keeps the bag invariant, the drawn name becoming the new next. */
  lemma DrawKeepsBagOk(bag: seq<ShapeName>, next: ShapeName, deck: seq<ShapeName>)
    requires BagOk(bag, next) && IsShuffle(deck)
    ensures BagOk(Draw(bag, deck).1, Draw(bag, deck).0)
  {
    ShuffleMultiset(deck);
    var (n, rest) := Draw(bag, deck);
    if bag != [] {
      calc {
        multiset(rest + [n]);
        multiset(bag);
      <=
        multiset(bag) + multiset{next};
        multiset(bag + [next]);
      }
    }
  }

  /** The first draw of a game, from an empty bag, satisfies the invariant. */
  lemma FirstDrawBagOk(deck: seq<ShapeName>)
    requires IsShuffle(deck)
    ensures BagOk(Draw([], deck).1, Draw([], deck).0)
  {
    ShuffleMultiset(deck);
  }

  /** The names handed out by successive draws, one deck per draw. */
  function Draws(bag: seq<ShapeName>, decks: seq<seq<ShapeName>>): seq<ShapeName>
    requires forall i :: 0 <= i < |decks| ==> decks[i] != []
    decreases |decks|
  {
    if decks == [] then []
    else
      var (n, rest) := Draw(bag, decks[0]);
      [n] + Draws(rest, decks[1..])
  }

  function Reverse(s: seq<ShapeName>): (r: seq<ShapeName>)
    ensures |r| == |s|
  {
    if s == [] then [] else Reverse(s[1..]) + [s[0]]
  }

  lemma {:induction false} ReversePermutes(s: seq<ShapeName>)
    ensures multiset(Reverse(s)) == multiset(s)
  {
    if s != [] {
      ReversePermutes(s[1..]);
      assert s == [s[0]] + s[1..];
    }
  }

  lemma {:induction false} ReverseSnoc(s: seq<ShapeName>, x: ShapeName)
    ensures Reverse(s + [x]) == [x] + Reverse(s)
  {
    if s != [] {
      assert (s + [x])[1..] == s[1..] + [x];
      ReverseSnoc(s[1..], x);
    } else {
      assert [x][1..] == [];
    }
  }

  /** A non-empty bag is emptied from its end without consulting any deck. */
  lemma {:induction false} DrainBag(bag: seq<ShapeName>, decks: seq<seq<ShapeName>>)
    requires forall i :: 0 <= i < |decks| ==> decks[i] != []
    requires |decks| == |bag|
    ensures Draws(bag, decks) == Reverse(bag)
    decreases |bag|
  {
    if bag != [] {
      var front, last := bag[..|bag| - 1], bag[|bag| - 1];
      assert bag == front + [last];
      assert Draw(bag, decks[0]) == (last, front);
      DrainBag(front, decks[1..]);
      ReverseSnoc(front, last);
    }
  }

  /** A refill followed by six more draws hands out the refill's deck back to
      front; the decks offered to those six draws are never used. */
  lemma RefillOrder(deck: seq<ShapeName>, later: seq<seq<ShapeName>>)
    requires IsShuffle(deck)
    requires |later| == 6 && forall i :: 0 <= i < |later| ==> later[i] != []
    ensures Draws([], [deck] + later) == Reverse(deck)
  {
    ShuffleMultiset(deck);
    var decks := [deck] + later;
    assert decks[1..] == later;
    var (last, front) := Draw([], deck);
    assert Draws([], decks) == [last] + Draws(front, later);
    DrainBag(front, later);
    ReverseSnoc(front, last);
  }

  /** Bag fairness: the seven draws that start with a refill hand out each of
      the seven names exactly once. */
  lemma RefillIsFair(deck: seq<ShapeName>, later: seq<seq<ShapeName>>)
    requires IsShuffle(deck)
    requires |later| == 6 && forall i :: 0 <= i < |later| ==> later[i] != []
    ensures multiset(Draws([], [deck] + later)) == AllNames
    ensures forall s: ShapeName :: multiset(Draws([], [deck] + later))[s] == 1
  {
    RefillOrder(deck, later);
    ShuffleMultiset(deck);
    ReverseOnce(deck);
  }

  /** Handing out a deck holding each name once, back to front, gives each
      name exactly once. */
  lemma ReverseOnce(deck: seq<ShapeName>)
    requires multiset(deck) == AllNames
    ensures multiset(Reverse(deck)) == AllNames
    ensures forall s: ShapeName :: multiset(Reverse(deck))[s] == 1
  {
    ReversePermutes(deck);
    forall s: ShapeName ensures multiset(Reverse(deck))[s] == 1 {
      AllShapesOnce(s);
    }
  }
}
