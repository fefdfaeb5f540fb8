// Model of Interview/Company/Apple/TakeHomeQ1.c: a deck of cards is dealt
// round-robin onto 3, 4 or 5 piles, each card going on top of its pile,
// and the piles are stacked back into a deck, pile 0 first; rounds repeat,
// the pile count cycling 3, 4, 5, until the deck is back in order.
//
// The linked lists are sequences of card values. A pile is listed from
// its top card down; an empty pile is the single placeholder card of value
// -1, and a deck built by `makeDeck` starts with a dummy node of value -1.
module CardDeck {

  import opened Division

  const MaxTotalPiles: nat := 5
  const NumPiles: nat := 3
  const PileNumberTable: seq<nat> := [3, 4, 5]

  /** The value of a placeholder card and of a deck's dummy head. */
  const Placeholder: int := -1

  /** The real cards of a list, in order: every -1 skipped, as
      `distribute` skips them. */
  function Cards(s: seq<int>): (r: seq<int>)
    ensures |r| <= |s| && Placeholder !in r
  {
    if s == [] then [] else (if s[0] == Placeholder then [] else [s[0]]) + Cards(s[1..])
  }

  /** A pile is its placeholder alone, or real cards only. */
  ghost predicate ValidPile(pile: seq<int>)
  {
    pile == [Placeholder] || (pile != [] && Placeholder !in pile)
  }

  ghost predicate ValidPiles(piles: seq<seq<int>>)
  {
    |piles| == MaxTotalPiles && forall i :: 0 <= i < |piles| ==> ValidPile(piles[i])
  }

  /** Every pile holding only its placeholder. */
  function EmptyPiles(): (r: seq<seq<int>>)
    ensures ValidPiles(r)
  {
    [[Placeholder], [Placeholder], [Placeholder], [Placeholder], [Placeholder]]
  }

  /** `addToPileFront` as intended: a card on an empty pile replaces the
      placeholder and is then the only card; otherwise it goes on top. */
  function Push(pile: seq<int>, v: int): seq<int>
    requires pile != []
  {
    if pile[0] == Placeholder then [v] else [v] + pile
  }

  /** `addToPileFront` as written: on an empty pile the new card's `next`
      is never set, so below it is whatever list the uninitialised pointer
      reaches, `stale`. */
  function PushAsWritten(pile: seq<int>, v: int, stale: seq<int>): seq<int>
    requires pile != []
  {
    if pile[0] == Placeholder then [v] + stale else [v] + pile
  }

  /** Pushing onto an empty pile as written leaves more than the one card
      pushed whenever the stale pointer reaches a card. */
  lemma PushAsWrittenOnEmpty()
    ensures PushAsWritten([Placeholder], 0, [7]) == [0, 7]
    ensures Push([Placeholder], 0) == [0]
  {
  }

  /** The pile index after `pileInd = (pileInd + 1) % pilesInUse`. */
  function Next(ind: nat, p: nat): (r: nat)
    requires ind < p
    ensures r < p
  {
    if ind + 1 == p then 0 else ind + 1
  }

  lemma {:induction false} NextIsMod(ind: nat, p: nat)
    requires ind < p
    ensures Next(ind, p) == (ind + 1) % p
  {
    if ind + 1 < p {
      QuotUnique(ind + 1, p, 0, ind + 1, (ind + 1) / p, (ind + 1) % p);
    } else {
      QuotUnique(ind + 1, p, 1, 0, (ind + 1) / p, (ind + 1) % p);
    }
  }

  /** `distribute(p, deck)` onto `piles`, the next real card going to pile
      `ind`. */
  function Deal(piles: seq<seq<int>>, deck: seq<int>, p: nat, ind: nat): (r: seq<seq<int>>)
    requires ValidPiles(piles) && 1 <= p <= MaxTotalPiles && ind < p
    ensures ValidPiles(r)
    decreases |deck|
  {
    if deck == [] then piles
    else if deck[0] == Placeholder then Deal(piles, deck[1..], p, ind)
    else Deal(piles[ind := Push(piles[ind], deck[0])], deck[1..], p, Next(ind, p))
  }

  /** The lists one after the other, the first first. */
  function Flatten(ps: seq<seq<int>>): seq<int>
  {
    if ps == [] then [] else ps[0] + Flatten(ps[1..])
  }

  /** One round from the piles all empty: deal the deck onto `p` piles and
      stack piles 0 to `p - 1` behind a dummy head. */
  function RoundDeck(deck: seq<int>, p: nat): seq<int>
    requires 1 <= p <= MaxTotalPiles
  {
    [Placeholder] + Flatten(Deal(EmptyPiles(), deck, p, 0)[..p])
  }

  /** The pile count of round `r` (from 0): the table entry `r % 3`. */
  function PileCount(r: nat): (p: nat)
    ensures 1 <= p <= MaxTotalPiles
  {
    PileNumberTable[r % NumPiles]
  }

  /** The deck after `r` rounds. */
  function AfterRounds(deck: seq<int>, r: nat): seq<int>
  {
    if r == 0 then deck else RoundDeck(AfterRounds(deck, r - 1), PileCount(r - 1))
  }

  /** The pile counts cycle 3, 4, 5. */
  lemma PileCountCycles(r: nat)
    ensures PileCount(r) == 3 + r % 3 && PileCount(r + 3) == PileCount(r)
  {
  }

  /** The cards 0 to n - 1 in order. */
  function Upto(n: nat): (r: seq<int>)
    ensures |r| == n && forall i :: 0 <= i < n ==> r[i] == i
  {
    seq(n, i => i)
  }

  /** What `checkOrder` accepts: each value one more than the one before. */
  ghost predicate Consecutive(d: seq<int>)
  {
    forall i :: 1 <= i < |d| ==> d[i] == d[i - 1] + 1
  }

  /** Behind a dummy head, `checkOrder` accepts exactly the cards 0 to
      n - 1 in order. */
  lemma {:induction false} ConsecutiveIsOrder(d: seq<int>)
    requires d != [] && d[0] == Placeholder
    ensures Consecutive(d) <==> d == [Placeholder] + Upto(|d| - 1)
  {
    if Consecutive(d) {
      forall i | 0 <= i < |d|
        ensures d[i] == i - 1
      {
        ConsecutiveFrom(d, i);
      }
      assert d == [Placeholder] + Upto(|d| - 1);
    }
  }

  lemma {:induction false} ConsecutiveFrom(d: seq<int>, i: nat)
    requires i < |d| && Consecutive(d)
    ensures d[i] == d[0] + i
  {
    if i > 0 {
      ConsecutiveFrom(d, i - 1);
    }
  }

  /** Pushing the cards `xs` onto a pile, first card first. */
  function PushAll(pile: seq<int>, xs: seq<int>): seq<int>
    requires pile != []
    decreases |xs|
  {
    if xs == [] then pile else PushAll(Push(pile, xs[0]), xs[1..])
  }

  /** The cards of `cs` that go to pile `j` when the first goes to pile
      `ind`, in the order they are dealt. */
  function Picks(cs: seq<int>, p: nat, ind: nat, j: nat): (r: seq<int>)
    requires ind < p
    ensures Placeholder !in cs ==> Placeholder !in r
    decreases |cs|
  {
    if cs == [] then [] else (if ind == j then [cs[0]] else []) + Picks(cs[1..], p, Next(ind, p), j)
  }

  /** The cards of `cs` at the positions `k`, counting from `pos`, with
      `k % p == j`: an independent statement of round-robin dealing. */
  function Column(cs: seq<int>, p: nat, j: nat, pos: nat): (r: seq<int>)
    requires p >= 1
    ensures Placeholder !in cs ==> Placeholder !in r
    decreases |cs|
  {
    if cs == [] then [] else (if pos % p == j then [cs[0]] else []) + Column(cs[1..], p, j, pos + 1)
  }

  function Rev(s: seq<int>): (r: seq<int>)
    ensures |r| == |s|
  {
    if s == [] then [] else Rev(s[1..]) + [s[0]]
  }

  lemma {:induction false} RevNoPlaceholder(s: seq<int>)
    requires Placeholder !in s
    ensures Placeholder !in Rev(s)
    decreases |s|
  {
    if s != [] {
      RevNoPlaceholder(s[1..]);
    }
  }

  /** After `distribute`, pile `j` is what it held with the cards dealt to
      it pushed on top in order. */
  lemma {:induction false} DealPile(piles: seq<seq<int>>, deck: seq<int>, p: nat, ind: nat, j: nat)
    requires ValidPiles(piles) && 1 <= p <= MaxTotalPiles && ind < p && j < MaxTotalPiles
    ensures Deal(piles, deck, p, ind)[j] == PushAll(piles[j], Picks(Cards(deck), p, ind, j))
    decreases |deck|
  {
    if deck != [] {
      var rest := Cards(deck[1..]);
      if deck[0] == Placeholder {
        assert Cards(deck) == rest;
        DealPile(piles, deck[1..], p, ind, j);
      } else {
        var v := deck[0];
        assert Cards(deck) == [v] + rest;
        var piles' := piles[ind := Push(piles[ind], v)];
        DealPile(piles', deck[1..], p, Next(ind, p), j);
        var xs := Picks([v] + rest, p, ind, j);
        assert ([v] + rest)[1..] == rest;
        if ind == j {
          assert xs == [v] + Picks(rest, p, Next(ind, p), j);
          assert xs[0] == v && xs[1..] == Picks(rest, p, Next(ind, p), j);
        } else {
          assert xs == Picks(rest, p, Next(ind, p), j);
        }
      }
    }
  }

  /** Dealing starting at pile `pos % p` is dealing by position. */
  lemma {:induction false} PicksByPosition(cs: seq<int>, p: nat, j: nat, pos: nat)
    requires p >= 1
    ensures Picks(cs, p, pos % p, j) == Column(cs, p, j, pos)
    decreases |cs|
  {
    if cs != [] {
      NextIsMod(pos % p, p);
      ModStep(pos, p);
      PicksByPosition(cs[1..], p, j, pos + 1);
    }
  }

  /** `(pos % p + 1) % p == (pos + 1) % p`. */
  lemma {:induction false} ModStep(pos: nat, p: nat)
    requires p >= 1
    ensures (pos % p + 1) % p == (pos + 1) % p
  {
    var q, r := pos / p, pos % p;
    assert pos == q * p + r;
    if r + 1 < p {
      QuotUnique(r + 1, p, 0, r + 1, (r + 1) / p, (r + 1) % p);
      QuotUnique(pos + 1, p, q, r + 1, (pos + 1) / p, (pos + 1) % p);
    } else {
      QuotUnique(r + 1, p, 1, 0, (r + 1) / p, (r + 1) % p);
      assert (q + 1) * p == q * p + p;
      QuotUnique(pos + 1, p, q + 1, 0, (pos + 1) / p, (pos + 1) % p);
    }
  }

  /** Cards pushed onto an empty pile come out in reverse deal order. */
  lemma {:induction false} PushAllOnEmpty(xs: seq<int>)
    requires Placeholder !in xs
    ensures PushAll([Placeholder], xs) == if xs == [] then [Placeholder] else Rev(xs)
  {
    if xs != [] {
      PushAllOnCards([xs[0]], xs[1..]);
      assert Rev(xs) == Rev(xs[1..]) + [xs[0]];
    }
  }

  lemma {:induction false} PushAllOnCards(pile: seq<int>, xs: seq<int>)
    requires pile != [] && pile[0] != Placeholder && Placeholder !in xs
    ensures PushAll(pile, xs) == Rev(xs) + pile
    decreases |xs|
  {
    if xs != [] {
      var x, rest := xs[0], xs[1..];
      assert Push(pile, x) == [x] + pile;
      assert PushAll(pile, xs) == PushAll([x] + pile, rest);
      PushAllOnCards([x] + pile, rest);
      assert Rev(xs) == Rev(rest) + [x];
      assert Rev(rest) + ([x] + pile) == (Rev(rest) + [x]) + pile;
    }
  }

  /** `distribute` from empty piles: the k-th real card of the deck goes
      to pile `k % p`, and each pile lists its cards in reverse deal
      order; a pile that gets none keeps its placeholder, and so do the
      piles from `p` on. */
  lemma {:induction false} DistributeFromEmpty(deck: seq<int>, p: nat, j: nat)
    requires 1 <= p <= MaxTotalPiles && j < MaxTotalPiles
    ensures var col := Column(Cards(deck), p, j, 0);
            Deal(EmptyPiles(), deck, p, 0)[j] == if col == [] then [Placeholder] else Rev(col)
    ensures p <= j ==> Column(Cards(deck), p, j, 0) == []
  {
    DealPile(EmptyPiles(), deck, p, 0, j);
    PicksByPosition(Cards(deck), p, j, 0);
    PushAllOnEmpty(Picks(Cards(deck), p, 0, j));
    if p <= j {
      ColumnBeyond(Cards(deck), p, j, 0);
    }
  }

  lemma {:induction false} ColumnBeyond(cs: seq<int>, p: nat, j: nat, pos: nat)
    requires 1 <= p <= j
    ensures Column(cs, p, j, pos) == []
    decreases |cs|
  {
    if cs != [] {
      ColumnBeyond(cs[1..], p, j, pos + 1);
    }
  }

  lemma {:induction false} CardsAppend(a: seq<int>, b: seq<int>)
    ensures Cards(a + b) == Cards(a) + Cards(b)
    decreases |a|
  {
    if a != [] {
      assert (a + b)[1..] == a[1..] + b;
      CardsAppend(a[1..], b);
    } else {
      assert a + b == b;
    }
  }

  /** The lists before `i`, list `i`, and the lists after it. */
  lemma {:induction false} FlattenSplit(ps: seq<seq<int>>, i: nat)
    requires i < |ps|
    ensures Flatten(ps) == Flatten(ps[..i]) + (ps[i] + Flatten(ps[i + 1..]))
    decreases i
  {
    if i > 0 {
      FlattenSplit(ps[1..], i - 1);
      assert ps[1..][..i - 1] == ps[..i][1..];
      assert ps[1..][i..] == ps[i + 1..];
      assert ps[..i][0] == ps[0];
    } else {
      assert ps[..0] == [];
      assert ps[1..] == ps[i + 1..];
    }
  }

  /** Replacing one list changes the cards of the flattened lists by the
      cards of that list. */
  lemma {:induction false} FlattenUpdate(ps: seq<seq<int>>, i: nat, x: seq<int>)
    requires i < |ps|
    ensures multiset(Cards(Flatten(ps[i := x]))) + multiset(Cards(ps[i])) ==
            multiset(Cards(Flatten(ps))) + multiset(Cards(x))
  {
    var qs := ps[i := x];
    assert qs[..i] == ps[..i] && qs[i + 1..] == ps[i + 1..] && qs[i] == x;
    var a, c := Flatten(ps[..i]), Flatten(ps[i + 1..]);
    FlattenSplit(ps, i);
    FlattenSplit(qs, i);
    CardsAppend(a, ps[i] + c);
    CardsAppend(ps[i], c);
    CardsAppend(a, x + c);
    CardsAppend(x, c);
  }

  /** Dealing moves the real cards of the deck onto the piles in use and
      loses or invents none. */
  lemma {:induction false} DealPermutes(piles: seq<seq<int>>, deck: seq<int>, p: nat, ind: nat)
    requires ValidPiles(piles) && 1 <= p <= MaxTotalPiles && ind < p
    ensures multiset(Cards(Flatten(Deal(piles, deck, p, ind)[..p]))) ==
            multiset(Cards(Flatten(piles[..p]))) + multiset(Cards(deck))
    decreases |deck|
  {
    if deck != [] {
      if deck[0] == Placeholder {
        assert Cards(deck) == Cards(deck[1..]);
        DealPermutes(piles, deck[1..], p, ind);
      } else {
        var v := deck[0];
        var piles' := piles[ind := Push(piles[ind], v)];
        assert Deal(piles, deck, p, ind) == Deal(piles', deck[1..], p, Next(ind, p));
        DealPermutes(piles', deck[1..], p, Next(ind, p));
        DealOne(piles, v, p, ind);
        assert multiset(Cards(deck)) == multiset{v} + multiset(Cards(deck[1..])) by {
          assert Cards(deck) == [v] + Cards(deck[1..]);
        }
      }
    }
  }

  /** One card dealt adds that card to the piles in use. */
  lemma {:induction false} DealOne(piles: seq<seq<int>>, v: int, p: nat, ind: nat)
    requires ValidPiles(piles) && 1 <= p <= MaxTotalPiles && ind < p && v != Placeholder
    ensures multiset(Cards(Flatten(piles[ind := Push(piles[ind], v)][..p]))) ==
            multiset(Cards(Flatten(piles[..p]))) + multiset{v}
  {
    var x := Push(piles[ind], v);
    var ps := piles[..p];
    assert piles[ind := x][..p] == ps[ind := x];
    FlattenUpdate(ps, ind, x);
    PushAddsCard(piles[ind], v);
    Cancel(multiset(Cards(Flatten(ps[ind := x]))), multiset(Cards(ps[ind])),
           multiset(Cards(Flatten(ps))) + multiset{v});
  }

  lemma {:induction false} Cancel(a: multiset<int>, b: multiset<int>, c: multiset<int>)
    requires a + b == c + b
    ensures a == c
  {
    forall x
      ensures a[x] == c[x]
    {
      assert (a + b)[x] == (c + b)[x];
    }
  }

  lemma {:induction false} PushAddsCard(pile: seq<int>, v: int)
    requires ValidPile(pile) && v != Placeholder
    ensures multiset(Cards(Push(pile, v))) == multiset(Cards(pile)) + multiset{v}
  {
    if pile[0] == Placeholder {
      assert pile == [Placeholder];
      assert Cards(pile) == [] && Cards([v]) == [v];
    } else {
      assert Push(pile, v) == [v] + pile;
      assert Cards([v] + pile) == [v] + Cards(pile);
    }
  }

  /** A round only permutes the real cards. */
  lemma {:induction false} RoundPermutes(deck: seq<int>, p: nat)
    requires 1 <= p <= MaxTotalPiles
    ensures multiset(Cards(RoundDeck(deck, p))) == multiset(Cards(deck))
  {
    var dealt := Flatten(Deal(EmptyPiles(), deck, p, 0)[..p]);
    DealPermutes(EmptyPiles(), deck, p, 0);
    EmptyHoldsNoCards(p);
    CardsAppend([Placeholder], dealt);
    assert Cards([Placeholder]) == [];
  }

  lemma {:induction false} EmptyHoldsNoCards(p: nat)
    requires p <= MaxTotalPiles
    ensures Cards(Flatten(EmptyPiles()[..p])) == []
  {
    var e := EmptyPiles()[..p];
    forall k | 0 <= k < |e|
      ensures e[k] == [Placeholder]
    {
      assert e[k] == EmptyPiles()[k];
    }
    PlaceholdersHoldNoCards(e);
  }

  /** Placeholders alone hold no cards. */
  lemma {:induction false} PlaceholdersHoldNoCards(ps: seq<seq<int>>)
    requires forall k :: 0 <= k < |ps| ==> ps[k] == [Placeholder]
    ensures Cards(Flatten(ps)) == []
    decreases |ps|
  {
    if ps != [] {
      PlaceholdersHoldNoCards(ps[1..]);
      CardsAppend(ps[0], Flatten(ps[1..]));
    }
  }

  lemma {:induction false} ColumnNonEmpty(cs: seq<int>, p: nat, j: nat, pos: nat)
    requires pos <= j < p && j - pos < |cs|
    ensures Column(cs, p, j, pos) != []
    decreases |cs|
  {
    if pos == j {
      QuotUnique(pos, p, 0, pos, pos / p, pos % p);
    } else {
      ColumnNonEmpty(cs[1..], p, j, pos + 1);
    }
  }

  lemma {:induction false} ColumnEmpty(cs: seq<int>, p: nat, j: nat, pos: nat)
    requires pos + |cs| <= j < p
    ensures Column(cs, p, j, pos) == []
    decreases |cs|
  {
    if cs != [] {
      QuotUnique(pos, p, 0, pos, pos / p, pos % p);
      ColumnEmpty(cs[1..], p, j, pos + 1);
    }
  }

  lemma {:induction false} FlattenNoPlaceholder(ps: seq<seq<int>>)
    requires forall k :: 0 <= k < |ps| ==> Placeholder !in ps[k]
    ensures Placeholder !in Flatten(ps)
    decreases |ps|
  {
    if ps != [] {
      FlattenNoPlaceholder(ps[1..]);
    }
  }

  lemma {:induction false} CardsOfCards(s: seq<int>)
    requires Placeholder !in s
    ensures Cards(s) == s
    decreases |s|
  {
    if s != [] {
      CardsOfCards(s[1..]);
    }
  }

  /** With at least as many cards as piles every pile gets a card, and
      the new deck is the dummy head and the cards: one longer than the
      cards of the old one, and with no other -1 in it. */
  lemma {:induction false} RoundLength(deck: seq<int>, p: nat)
    requires 1 <= p <= MaxTotalPiles && p <= |Cards(deck)|
    ensures |RoundDeck(deck, p)| == |Cards(deck)| + 1
    ensures Placeholder !in RoundDeck(deck, p)[1..]
  {
    var ps := Deal(EmptyPiles(), deck, p, 0)[..p];
    var f := Flatten(ps);
    assert Placeholder !in f by {
      forall j | 0 <= j < p
        ensures Placeholder !in ps[j]
      {
        DistributeFromEmpty(deck, p, j);
        ColumnNonEmpty(Cards(deck), p, j, 0);
        RevNoPlaceholder(Column(Cards(deck), p, j, 0));
      }
      FlattenNoPlaceholder(ps);
    }
    assert RoundDeck(deck, p) == [Placeholder] + f;
    assert Cards(RoundDeck(deck, p)) == f by {
      CardsOfCards(f);
      CardsAppend([Placeholder], f);
      assert Cards([Placeholder]) == [];
    }
    RoundPermutes(deck, p);
    SameLength(f, Cards(deck));
  }

  lemma {:induction false} SameLength(a: seq<int>, b: seq<int>)
    requires multiset(a) == multiset(b)
    ensures |a| == |b|
  {
    assert |multiset(a)| == |a| && |multiset(b)| == |b|;
  }

  /** With fewer cards than piles the last pile in use stays empty, and
      its placeholder ends up in the new deck after the head. */
  lemma {:induction false} RoundShortOfCards(deck: seq<int>, p: nat)
    requires 1 <= p <= MaxTotalPiles && |Cards(deck)| < p
    ensures Placeholder in RoundDeck(deck, p)[1..]
  {
    var ps := Deal(EmptyPiles(), deck, p, 0)[..p];
    LastPileEmpty(deck, p);
    EmptyPileFlattened(ps, p - 1);
    assert RoundDeck(deck, p)[1..] == Flatten(ps);
  }

  lemma {:induction false} LastPileEmpty(deck: seq<int>, p: nat)
    requires 1 <= p <= MaxTotalPiles && |Cards(deck)| < p
    ensures Deal(EmptyPiles(), deck, p, 0)[p - 1] == [Placeholder]
  {
    var cs := Cards(deck);
    ColumnEmpty(cs, p, p - 1, 0);
    assert Column(cs, p, p - 1, 0) == [];
    DistributeFromEmpty(deck, p, p - 1);
  }

  /** An empty pile leaves its placeholder in the flattened piles. */
  lemma {:induction false} EmptyPileFlattened(ps: seq<seq<int>>, i: nat)
    requires i < |ps| && ps[i] == [Placeholder]
    ensures Placeholder in Flatten(ps)
  {
    FlattenSplit(ps, i);
    assert Flatten(ps)[|Flatten(ps[..i])|] == Placeholder;
  }

  /** No round changes the number of real cards. */
  lemma {:induction false} CardCountKept(deck: seq<int>, r: nat)
    ensures |Cards(AfterRounds(deck, r))| == |Cards(deck)|
  {
    if r > 0 {
      var prev := AfterRounds(deck, r - 1);
      CardCountKept(deck, r - 1);
      assert AfterRounds(deck, r) == RoundDeck(prev, PileCount(r - 1));
      RoundPermutes(prev, PileCount(r - 1));
      SameLength(Cards(RoundDeck(prev, PileCount(r - 1))), Cards(prev));
    }
  }

  /** With fewer than 3 cards every round leaves a pile empty, so the
      deck is never back in order and the loop of `main` never ends. */
  lemma {:induction false} FewCardsNeverInOrder(numCards: int, r: nat)
    requires numCards < 3 && r >= 1
    ensures !Consecutive(AfterRounds(InitialDeckOf(numCards), r))
  {
    var d0 := InitialDeckOf(numCards);
    assert |Cards(d0)| < 3 by {
      if numCards > 0 {
        CardsOfCards(Upto(numCards));
      }
    }
    var prev := AfterRounds(d0, r - 1);
    CardCountKept(d0, r - 1);
    RoundShortOfCards(prev, PileCount(r - 1));
    var d := AfterRounds(d0, r);
    var i :| 0 <= i < |d[1..]| && d[1..][i] == Placeholder;
    if Consecutive(d) {
      ConsecutiveFrom(d, i + 1);
    }
  }

  /** The piles beside the deck: pile `i` is `pileArr[i]`, listed from
      its top card down. */
  class Table {
    var piles: seq<seq<int>>

    /** The set-up loop of `main`: every pile starts as its placeholder. */
    constructor()
      ensures piles == EmptyPiles()
    {
      piles := EmptyPiles();
    }

    /** `resetPiles`: each pile's top card becomes the placeholder and the
        cards below it are dropped. */
    method ResetPiles()
      requires |piles| == MaxTotalPiles
      modifies this
      ensures piles == EmptyPiles()
    {
      var i := 0;
      while i < MaxTotalPiles
        invariant 0 <= i <= MaxTotalPiles && |piles| == MaxTotalPiles
        invariant forall k :: 0 <= k < i ==> piles[k] == [Placeholder]
      {
        piles := piles[i := [Placeholder]];
        i := i + 1;
      }
      assert forall k :: 0 <= k < MaxTotalPiles ==> piles[k] == EmptyPiles()[k];
    }

    /** `addToPileFront(&pileArr[i], val)`, with the new top card's `next`
        NULL on an empty pile. */
    method AddToPileFront(i: nat, val: int)
      requires ValidPiles(piles) && i < MaxTotalPiles && val != Placeholder
      modifies this
      ensures piles == old(piles)[i := Push(old(piles)[i], val)]
    {
      piles := piles[i := Push(piles[i], val)];
    }

    /** `distribute(pilesInUse, deck)`: each real card of the deck, in
        order, goes on top of the next pile in turn. */
    method Distribute(pilesInUse: nat, deck: seq<int>)
      requires ValidPiles(piles) && 1 <= pilesInUse <= MaxTotalPiles
      modifies this
      ensures piles == Deal(old(piles), deck, pilesInUse, 0)
    {
      var k: nat := 0;
      var pileInd: nat := 0;
      while k < |deck|
        invariant 0 <= k <= |deck| && pileInd < pilesInUse && ValidPiles(piles)
        invariant Deal(piles, deck[k..], pilesInUse, pileInd) == Deal(old(piles), deck, pilesInUse, 0)
      {
        assert deck[k..][1..] == deck[k + 1..];
        if deck[k] == Placeholder {
          k := k + 1;
          continue;
        }
        AddToPileFront(pileInd, deck[k]);
        k := k + 1;
        NextIsMod(pileInd, pilesInUse);
        pileInd := (pileInd + 1) % pilesInUse;
      }
    }

    /** `makeDeck(pilesInUse)`: a dummy head, then the cards of pile 0,
        pile 1, ..., each from its top card down. */
    method MakeDeck(pilesInUse: nat) returns (d: seq<int>)
      requires |piles| == MaxTotalPiles && pilesInUse <= MaxTotalPiles
      ensures d == [Placeholder] + Flatten(piles[..pilesInUse])
    {
      d := [Placeholder];
      var i := 0;
      while i < pilesInUse
        invariant 0 <= i <= pilesInUse
        invariant d + Flatten(piles[i..pilesInUse]) == [Placeholder] + Flatten(piles[..pilesInUse])
      {
        assert piles[i..pilesInUse][1..] == piles[i + 1..pilesInUse];
        d := AddToDeckTail(piles[i], d);
        i := i + 1;
      }
      assert piles[pilesInUse..pilesInUse] == [];
    }
  }

  /** `addToDeckTail(pile, deck)`: a copy of each card of the pile, from
      its top card down, is linked after the last node of the deck. */
  method AddToDeckTail(pile: seq<int>, deck: seq<int>) returns (d: seq<int>)
    ensures d == deck + pile
  {
    d := deck;
    var k := 0;
    while k < |pile|
      invariant 0 <= k <= |pile| && d == deck + pile[..k]
    {
      assert pile[..k + 1] == pile[..k] + [pile[k]];
      d := d + [pile[k]];
      k := k + 1;
    }
    assert pile[..k] == pile;
  }

  /** `addToDeckTail2(val, deck)`: a deck that is still the dummy node is
      replaced by the new card alone; otherwise the card goes at the end. */
  method AddToDeckTail2(val: int, deck: seq<int>) returns (d: seq<int>)
    requires deck != []
    ensures d == if deck[0] == Placeholder then [val] else deck + [val]
  {
    if deck[0] == Placeholder {
      return [val];
    }
    d := deck + [val];
  }

  /** The first deck of `main`: the dummy node, replaced by card 0, then
      cards 1 to n - 1 appended. With no cards it stays the dummy. */
  method InitialDeck(numCards: int) returns (deck: seq<int>)
    ensures numCards <= 0 ==> deck == [Placeholder]
    ensures numCards > 0 ==> deck == Upto(numCards)
  {
    deck := [Placeholder];
    var i := 0;
    while i < numCards
      invariant 0 <= i && (numCards >= 0 ==> i <= numCards) && (numCards <= 0 ==> i == 0)
      invariant if i == 0 then deck == [Placeholder] else deck == Upto(i)
    {
      deck := AddToDeckTail2(i, deck);
      i := i + 1;
    }
  }

  /** `checkOrder(deck)`: every node's value is one more than the one
      before it. */
  method CheckOrder(deck: seq<int>) returns (b: bool)
    requires deck != []
    ensures b <==> Consecutive(deck)
  {
    var prev := deck[0];
    var k := 1;
    while k < |deck|
      invariant 1 <= k <= |deck| && prev == deck[k - 1]
      invariant forall i :: 1 <= i < k ==> deck[i] == deck[i - 1] + 1
    {
      if prev != deck[k] - 1 {
        return false;
      }
      prev := deck[k];
      k := k + 1;
    }
    return true;
  }

  /** The loop of `main`: rounds of `distribute`, `makeDeck`,
      `resetPiles` and `checkOrder`, the pile count taken from the table
      in turn, until the deck is in order. The source loops without bound;
      here at most `maxRounds` rounds are played. The result is the first
      round count after which the deck is in order, if there is one within
      the bound. */
  method Play(numCards: int, maxRounds: nat) returns (numRounds: nat, originalOrder: bool)
    ensures numRounds <= maxRounds && (!originalOrder ==> numRounds == maxRounds)
    ensures originalOrder ==> numRounds >= 1 && Consecutive(AfterRounds(InitialDeckOf(numCards), numRounds))
    ensures forall r :: 1 <= r < numRounds ==> !Consecutive(AfterRounds(InitialDeckOf(numCards), r))
  {
    var currDeck := InitialDeck(numCards);
    ghost var deck0 := InitialDeckOf(numCards);
    var table := new Table();
    originalOrder := false;
    numRounds := 0;
    var pileNumInd: nat := 0;
    while !originalOrder && numRounds < maxRounds
      invariant numRounds <= maxRounds && pileNumInd == numRounds % NumPiles
      invariant table.piles == EmptyPiles()
      invariant currDeck == AfterRounds(deck0, numRounds)
      invariant originalOrder <==> numRounds >= 1 && Consecutive(currDeck)
      invariant forall r :: 1 <= r < numRounds ==> !Consecutive(AfterRounds(deck0, r))
    {
      ghost var r0 := numRounds;
      assert PileNumberTable[pileNumInd] == PileCount(r0);
      currDeck := PlayRound(table, currDeck, PileNumberTable[pileNumInd]);
      assert currDeck == AfterRounds(deck0, r0 + 1);
      originalOrder := CheckOrder(currDeck);
      forall r | 1 <= r < r0 + 1
        ensures !Consecutive(AfterRounds(deck0, r))
      {
        if r == r0 {
          assert !Consecutive(AfterRounds(deck0, r0));
        }
      }
      numRounds := numRounds + 1;
      ModStep(r0, NumPiles);
      pileNumInd := (pileNumInd + 1) % NumPiles;
    }
  }

  /** One pass of that loop's body before the check: deal onto `p`
      piles, stack them into a new deck, and empty the piles again. */
  method PlayRound(table: Table, deck: seq<int>, p: nat) returns (d: seq<int>)
    requires table.piles == EmptyPiles() && 1 <= p <= MaxTotalPiles
    modifies table
    ensures d == RoundDeck(deck, p) && table.piles == EmptyPiles()
  {
    table.Distribute(p, deck);
    d := table.MakeDeck(p);
    table.ResetPiles();
  }

  /** The deck `InitialDeck` builds. */
  function InitialDeckOf(numCards: int): seq<int>
  {
    if numCards <= 0 then [Placeholder] else Upto(numCards)
  }

  /** Three cards on three piles are back in order after one round. */
  lemma {:induction false} ThreeCardsOneRound()
    ensures Consecutive(AfterRounds(InitialDeckOf(3), 1))
  {
    var d := Upto(3);
    assert d == [0, 1, 2];
    var e := EmptyPiles();
    assert Deal(e, d, 3, 0) == Deal(e[0 := [0]], [1, 2], 3, 1) by {
      assert d[1..] == [1, 2];
    }
    assert Deal(e[0 := [0]], [1, 2], 3, 1) == Deal(e[0 := [0]][1 := [1]], [2], 3, 2) by {
      assert [1, 2][1..] == [2];
    }
    var f := e[0 := [0]][1 := [1]][2 := [2]];
    assert Deal(e[0 := [0]][1 := [1]], [2], 3, 2) == f;
    var g: seq<seq<int>> := [[0], [1], [2]];
    assert f[..3] == g;
    assert g[1..] == [[1], [2]] && g[1..][1..] == [[2]] && g[1..][1..][1..] == [];
    assert Flatten(g) == [0, 1, 2];
  }
}
