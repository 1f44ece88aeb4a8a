/** Games between two restaurants in which the one that the players dislike more wins. */
module VotingUpsets {
  import opened VotingModel
  import opened VotingReach
  import opened VotingRuns

  /** A game between restaurants 0 and 1. */
  function Pair(a: Row, b: Row, players: nat, round: nat, phase: Phase): Game {
    Game([a, b], players, round, phase)
  }

  function Fresh(id: nat): Row {
    Row(id, 0, 0, true, 1)
  }

  /** A round change between two restaurants drops the one with fewer negative votes. */
  lemma DropOne(g: Game, k: nat, g': Game)
    requires |g.rows| == 2 && k < 2 && g.rows[k].neg <= g.rows[1 - k].neg && g.currRound <= ROUNDS
    requires forall i :: 0 <= i < 2 && g.rows[i].candidate ==> g.rows[i].round != g.currRound
    requires Offers(g.(rows := DropAndReset(g.rows, {k}), currRound := g.currRound + 1), g')
    ensures Offers(g, g')
  {
    assert IsLowerHalf(g.rows, {k});
    assert Reduced(g.rows, DropAndReset(g.rows, {k}));
    assert Current(g.rows, g.currRound) == {};
    hide Reduced;
  }

  lemma DropOfPair(a: Row, b: Row)
    ensures DropAndReset([a, b], {0}) == [a.(pos := 0, neg := 0, candidate := false), b.(pos := 0, neg := 0)]
    ensures DropAndReset([a, b], {1}) == [a.(pos := 0, neg := 0), b.(pos := 0, neg := 0, candidate := false)]
  {
  }

  lemma MoveOfPair(a: Row, b: Row, up: nat, down: nat)
    requires a.id != b.id
    ensures NextRound(Counted([a, b], 0, up, down), a.id) == [a.(pos := up, neg := down, round := a.round + 1), b]
    ensures NextRound(Counted([a, b], 1, up, down), b.id) == [a, b.(pos := up, neg := down, round := b.round + 1)]
    ensures Disable(Counted([a, b], 0, up, down), a.id) == [a.(pos := up, neg := down, candidate := false), b]
  {
  }

  lemma PairOpens(a: Row, b: Row, players: nat, round: nat)
    requires a.id == 0 && b.id == 1 && b.pos == b.neg == 0
    ensures Opens(Pair(a, b, players, round, Offering(1)), 1)
  {
  }

  /** Restaurant 1 on offer, all votes but one in, and that one, against it, the last of so many. */
  function LastVote(a: Row, b: Row, players: nat, round: nat, down: nat): Game
    requires 0 < down < players
  {
    Pair(a, b.(pos := players - down, neg := down - 1), players, round, Offering(1))
  }

  lemma LastCount(a: Row, b: Row, players: nat, round: nat, down: nat)
    requires 0 < down < players
    ensures Counted([a, b], 1, players - down, down - 1) == LastVote(a, b, players, round, down).rows
  {
  }

  /** A mixed ballot on restaurant 1 ends the round, and the round change drops the restaurant with fewer such votes. */
  lemma RoundEnds(start: Game, a: Row, b: Row, players: nat, round: nat, down: nat, k: nat, g': Game)
    requires 0 < down < players && k < 2 && round <= ROUNDS && a.id == 0 && b.id == 1 && b.pos == b.neg == 0
    requires Reachable(start, Pair(a, b, players, round, Offering(1)))
    requires b.round == round && (a.candidate ==> a.round != round)
    requires if k == 0 then a.neg <= down else down <= a.neg
    requires Offers(Pair(a.(pos := 0, neg := 0, candidate := a.candidate && k != 0),
                         b.(candidate := b.candidate && k != 1, round := round + 1), players, round + 1, Offering(1)), g')
    ensures Reachable(start, g')
    ensures Reachable(start, LastVote(a, b, players, round, down))
    ensures Votes(LastVote(a, b, players, round, down), Ballot(1, false), g')
  {
    hide Offers, Reachable, ReachableIn, Opens, Counted, NextRound, DropAndReset, Votes;
    var b1 := b.(pos := players - down, neg := down, round := round + 1);
    PairOpens(a, b, players, round);
    MoveOfPair(a, b, players - down, down);
    DropOfPair(a, b1);
    LastCount(a, b, players, round, down);
    DropOne(Pair(a, b1, players, round, Offering(1)), k, g');
    MixedBallotLeads(start, Pair(a, b, players, round, Offering(1)), 1, down, g');
  }

  /** The restaurant that is left when the other is out, back on offer in a later round. */
  function Alone(players: nat, round: nat, aRound: nat, phase: Phase): Game {
    Pair(Row(0, 0, 0, false, aRound), Row(1, 0, 0, true, round), players, round, phase)
  }

  lemma AloneOffered(players: nat, round: nat, aRound: nat)
    requires round <= ROUNDS
    ensures Offers(Alone(players, round, aRound, Offering(1)), Alone(players, round, aRound, Offering(1)))
  {
    OfferOne(Alone(players, round, aRound, Offering(1)), 1);
  }

  /** Another mixed ballot takes the restaurant that is left through a round. */
  lemma AloneNext(start: Game, players: nat, round: nat, aRound: nat)
    requires players >= 2 && round < ROUNDS && Reachable(start, Alone(players, round, aRound, Offering(1)))
    ensures Reachable(start, Alone(players, round + 1, aRound, Offering(1)))
  {
    hide Offers, Reachable, Votes;
    AloneOffered(players, round + 1, aRound);
    RoundEnds(start, Row(0, 0, 0, false, aRound), Row(1, 0, 0, true, round), players, round, 1, 0,
              Alone(players, round + 1, aRound, Offering(1)));
  }

  lemma AloneChosen(players: nat, aRound: nat)
    ensures Offers(Alone(players, ROUNDS + 1, aRound, Offering(1)), Alone(players, ROUNDS + 1, aRound, Chosen(1)))
  {
    var g, g' := Alone(players, ROUNDS + 1, aRound, Offering(1)), Alone(players, ROUNDS + 1, aRound, Chosen(1));
    assert LeastDisliked(g.rows, 1) && g.rows[1].id == 1;
    assert Ends(g, g');
  }

  /** After the last round it is chosen. */
  lemma AloneWins(start: Game, players: nat, aRound: nat)
    requires players >= 2 && Reachable(start, Alone(players, ROUNDS, aRound, Offering(1)))
    ensures Reachable(start, Alone(players, ROUNDS + 1, aRound, Chosen(1)))
  {
    hide Offers, Reachable, Votes;
    AloneChosen(players, aRound);
    RoundEnds(start, Row(0, 0, 0, false, aRound), Row(1, 0, 0, true, ROUNDS), players, ROUNDS, 1, 0,
              Alone(players, ROUNDS + 1, aRound, Chosen(1)));
  }

  function Start(players: nat, phase: Phase): Game {
    Pair(Fresh(0), Fresh(1), players, 1, phase)
  }

  lemma FirstOffer(players: nat, phase: Phase)
    requires players >= 1
    ensures Stored(Start(players, phase)) && Reachable(Start(players, phase), Start(players, Offering(0)))
  {
    OfferOne(Start(players, phase), 0);
    hide Offers, Reachable;
    FirstReached(Start(players, phase), Start(players, Offering(0)));
  }

  /** Restaurant 1 on offer in the first round, after the ballot on restaurant 0. */
  function Second(a: Row, players: nat): Game {
    Pair(a, Fresh(1), players, 1, Offering(1))
  }

  lemma SecondAfterMixed(start: Game, players: nat, down: nat)
    requires 0 < down < players && Reachable(start, Start(players, Offering(0)))
    ensures Reachable(start, Second(Row(0, players - down, down, true, 2), players))
  {
    var a := Row(0, players - down, down, true, 2);
    OfferOne(Pair(a, Fresh(1), players, 1, Offering(0)), 1);
    MoveOfPair(Fresh(0), Fresh(1), players - down, down);
    hide Offers, Reachable, Counted, NextRound;
    MixedBallotLeads(start, Start(players, Offering(0)), 0, down, Second(a, players));
  }

  lemma SecondAfterRejection(start: Game, players: nat)
    requires players >= 1 && Reachable(start, Start(players, Offering(0)))
    ensures Reachable(start, Second(Row(0, 0, players, false, 1), players))
  {
    var a := Row(0, 0, players, false, 1);
    OfferOne(Pair(a, Fresh(1), players, 1, Offering(0)), 1);
    MoveOfPair(Fresh(0), Fresh(1), 0, players);
    hide Offers, Reachable, Counted, Disable;
    RejectionLeads(start, Start(players, Offering(0)), 0, Second(a, players));
  }

  /** One vote against restaurant 0, two against restaurant 1: the first round change eliminates restaurant 0. */
  lemma LessDislikedGoes(start: Game, players: nat)
    requires players >= 3 && Reachable(start, Start(players, Offering(0)))
    ensures var last := LastVote(Row(0, players - 1, 1, true, 2), Fresh(1), players, 1, 2);
      Reachable(start, last) && Votes(last, Ballot(1, false), Alone(players, 2, 2, Offering(1)))
    ensures Reachable(start, Alone(players, 2, 2, Offering(1)))
  {
    hide Offers, Reachable, Votes, LastVote;
    SecondAfterMixed(start, players, 1);
    AloneOffered(players, 2, 2);
    RoundEnds(start, Row(0, players - 1, 1, true, 2), Fresh(1), players, 1, 2, 0, Alone(players, 2, 2, Offering(1)));
  }

  /**
   * With any number of players from 3 on: restaurant 0 is rejected by one player, restaurant 1 by two, and on the
   * second of those votes the round change eliminates restaurant 0. Restaurant 1 is chosen after the last round.
   */
  lemma MoreDislikedWins(players: nat, phase: Phase)
    requires players >= 3
    ensures var start := Start(players, phase);
      && Stored(start)
      && var last := LastVote(Row(0, players - 1, 1, true, 2), Fresh(1), players, 1, 2);
      && Reachable(start, last) && Votes(last, Ballot(1, false), Alone(players, 2, 2, Offering(1)))
      && Reachable(start, Alone(players, ROUNDS + 1, 2, Chosen(1)))
  {
    hide Offers, Reachable, Stored, Votes, Start, LastVote, Alone;
    var start := Start(players, phase);
    FirstOffer(players, phase);
    LessDislikedGoes(start, players);
    AloneNext(start, players, 2, 2);
    AloneWins(start, players, 2);
  }

  /** Two restaurants that are both out. */
  function Nobody(players: nat, round: nat, phase: Phase): Game {
    Pair(Row(0, 0, 0, false, 1), Row(1, 0, 0, false, 2), players, round, phase)
  }

  lemma {:induction false} AnyoneWins(players: nat, round: nat, phase: Phase)
    requires 1 <= round <= ROUNDS + 1
    ensures Offers(Nobody(players, round, phase), Nobody(players, ROUNDS + 1, Chosen(0)))
    decreases ROUNDS + 1 - round
  {
    var g, g' := Nobody(players, round, phase), Nobody(players, ROUNDS + 1, Chosen(0));
    if round <= ROUNDS {
      AnyoneWins(players, round + 1, phase);
      DropOfPair(g.rows[0], g.rows[1]);
      hide Offers;
      DropOne(g, 0, g');
    } else {
      assert !AnyCandidate(g.rows) && g.rows[0].id == 0;
      assert Ends(g, g');
    }
  }

  /**
   * With any number of players from 2 on: every player rejects restaurant 0, one of them approves of restaurant 1,
   * the round change eliminates that too, although half of the restaurants already are, and restaurant 0 is chosen.
   */
  lemma RejectedByAllWins(players: nat, phase: Phase)
    requires players >= 2
    ensures var start := Start(players, phase);
      && Stored(start)
      && var last := LastVote(Row(0, 0, players, false, 1), Fresh(1), players, 1, players - 1);
      && Reachable(start, last) && Votes(last, Ballot(1, false), Nobody(players, ROUNDS + 1, Chosen(0)))
      && Reachable(start, Nobody(players, ROUNDS + 1, Chosen(0)))
  {
    var start := Start(players, phase);
    hide Offers, Reachable, Stored, Votes;
    FirstOffer(players, phase);
    SecondAfterRejection(start, players);
    AnyoneWins(players, 2, Offering(1));
    RoundEnds(start, Row(0, 0, players, false, 1), Fresh(1), players, 1, players - 1, 1, Nobody(players, ROUNDS + 1, Chosen(0)));
  }
}
