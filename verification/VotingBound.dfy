/** The bound on the ballots of a game is attained, with any number of restaurants and at least two players. */
module VotingBound {
  import opened VotingModel
  import opened VotingReach
  import opened VotingRuns

  /**
   * Row i when the first h rows are out and the first j of the others have had a mixed ballot in the round, in which
   * one player rejected them.
   */
  function BoardRow(players: nat, h: nat, round: nat, j: nat, i: nat): Row
    requires players >= 1
  {
    if i < h then Row(i, 0, 0, false, 2)
    else if i < h + j then Row(i, players - 1, 1, true, round + 1)
    else Row(i, 0, 0, true, round)
  }

  function Board(restaurants: nat, players: nat, h: nat, round: nat, j: nat): (rows: seq<Row>)
    requires players >= 1
    ensures |rows| == restaurants && forall i :: 0 <= i < restaurants ==> rows[i] == BoardRow(players, h, round, j, i)
  {
    seq(restaurants, i requires 0 <= i < restaurants => BoardRow(players, h, round, j, i))
  }

  function Played(restaurants: nat, players: nat, h: nat, round: nat, j: nat, phase: Phase): Game
    requires players >= 1
  {
    Game(Board(restaurants, players, h, round, j), players, round, phase)
  }

  /** One more mixed ballot. */
  lemma BoardNext(restaurants: nat, players: nat, h: nat, round: nat, j: nat)
    requires players >= 1 && h + j < restaurants
    ensures NextRound(Counted(Board(restaurants, players, h, round, j), h + j, players - 1, 1), h + j)
         == Board(restaurants, players, h, round, j + 1)
  {
  }

  function FirstRows(n: nat): (s: set<nat>)
    ensures |s| == n && forall i: nat :: i in s <==> i < n
  {
    if n == 0 then {} else FirstRows(n - 1) + {n - 1}
  }

  /** When all have had their ballot, a round change can drop the first half, which it has dropped before. */
  lemma BoardHalves(restaurants: nat, players: nat, h: nat, round: nat)
    requires players >= 1 && ((h == 0 && round == 1) || h == restaurants / 2)
    ensures Reduced(Board(restaurants, players, h, round, restaurants - h), Board(restaurants, players, restaurants / 2, round + 1, 0))
  {
    var rows, lower := Board(restaurants, players, h, round, restaurants - h), FirstRows(restaurants / 2);
    hide FirstRows;
    assert IsLowerHalf(rows, lower);
    assert DropAndReset(rows, lower) == Board(restaurants, players, restaurants / 2, round + 1, 0);
    hide IsLowerHalf, DropAndReset;
  }

  /** A row that has not had its ballot can be offered. */
  lemma OffersRow(restaurants: nat, players: nat, h: nat, round: nat, j: nat, phase: Phase)
    requires players >= 1 && h + j < restaurants && round <= ROUNDS
    ensures Offers(Played(restaurants, players, h, round, j, phase), Played(restaurants, players, h, round, j, Offering(h + j)))
  {
    OfferOne(Played(restaurants, players, h, round, j, phase), h + j);
    hide Offers;
  }

  /** When no such row is left, the search goes on after a round change. */
  lemma OffersAfterRound(restaurants: nat, players: nat, h: nat, round: nat, phase: Phase, g': Game)
    requires players >= 1 && round <= ROUNDS && h <= restaurants && ((h == 0 && round == 1) || h == restaurants / 2)
    requires Offers(Played(restaurants, players, restaurants / 2, round + 1, 0, phase), g')
    ensures Offers(Played(restaurants, players, h, round, restaurants - h, phase), g')
  {
    BoardHalves(restaurants, players, h, round);
    var g := Played(restaurants, players, h, round, restaurants - h, phase);
    assert Current(g.rows, g.currRound) == {};
    hide Reduced;
  }

  lemma OpensRow(restaurants: nat, players: nat, h: nat, round: nat, j: nat)
    requires players >= 1 && h + j < restaurants
    ensures Opens(Played(restaurants, players, h, round, j, Offering(h + j)), h + j)
  {
  }

  /** A mixed ballot on the row that is offered leads on to whatever the search can then find. */
  lemma OneBallot(start: Game, restaurants: nat, players: nat, h: nat, round: nat, j: nat, n: nat, g': Game)
    requires players >= 2 && h + j < restaurants
    requires ReachableIn(start, Played(restaurants, players, h, round, j, Offering(h + j)), n)
    requires Offers(Played(restaurants, players, h, round, j + 1, Offering(h + j)), g')
    ensures ReachableIn(start, g', n + 1)
  {
    OpensRow(restaurants, players, h, round, j);
    BoardNext(restaurants, players, h, round, j);
    hide ReachableIn, Offers, Opens, NextRound, Counted;
    MixedBallotReached(start, Played(restaurants, players, h, round, j, Offering(h + j)), n, h + j, 1, g');
  }

  /** Ballot by ballot to the last row of a round. */
  lemma {:induction false} BallotsOfRound(start: Game, restaurants: nat, players: nat, h: nat, round: nat, n: nat, j: nat)
    requires players >= 2 && h + j < restaurants && round <= ROUNDS
    requires ReachableIn(start, Played(restaurants, players, h, round, 0, Offering(h)), n)
    ensures ReachableIn(start, Played(restaurants, players, h, round, j, Offering(h + j)), n + j)
    decreases j
  {
    hide ReachableIn, Offers, Played;
    if j > 0 {
      BallotsOfRound(start, restaurants, players, h, round, n, j - 1);
      OffersRow(restaurants, players, h, round, j, Offering(h + j - 1));
      OneBallot(start, restaurants, players, h, round, j - 1, n + j - 1,
                Played(restaurants, players, h, round, j, Offering(h + j)));
    }
  }

  /** A whole round, and the round change. */
  lemma WholeRound(start: Game, restaurants: nat, players: nat, h: nat, round: nat, n: nat, g': Game)
    requires players >= 2 && h < restaurants && round <= ROUNDS && ((h == 0 && round == 1) || h == restaurants / 2)
    requires ReachableIn(start, Played(restaurants, players, h, round, 0, Offering(h)), n)
    requires Offers(Played(restaurants, players, restaurants / 2, round + 1, 0, Offering(restaurants - 1)), g')
    ensures ReachableIn(start, g', n + restaurants - h)
  {
    hide ReachableIn, Offers, Played;
    BallotsOfRound(start, restaurants, players, h, round, n, restaurants - h - 1);
    OffersAfterRound(restaurants, players, h, round, Offering(restaurants - 1), g');
    OneBallot(start, restaurants, players, h, round, restaurants - h - 1, n + restaurants - h - 1, g');
  }

  lemma LastChoice(restaurants: nat, players: nat, phase: Phase)
    requires players >= 1 && restaurants >= 1
    ensures var h := restaurants / 2;
      Offers(Played(restaurants, players, h, ROUNDS + 1, 0, phase), Played(restaurants, players, h, ROUNDS + 1, 0, Chosen(h)))
  {
    var h := restaurants / 2;
    var g, g' := Played(restaurants, players, h, ROUNDS + 1, 0, phase), Played(restaurants, players, h, ROUNDS + 1, 0, Chosen(h));
    assert LeastDisliked(g.rows, h) && g.rows[h].id == h;
    assert Ends(g, g');
  }

  lemma StartOfBoard(restaurants: nat, players: nat, phase: Phase)
    requires players >= 1 && restaurants >= 1
    ensures Stored(Played(restaurants, players, 0, 1, 0, phase))
    ensures ReachableIn(Played(restaurants, players, 0, 1, 0, phase), Played(restaurants, players, 0, 1, 0, Offering(0)), 0)
  {
    OffersRow(restaurants, players, 0, 1, 0, phase);
    hide Offers, ReachableIn;
    FirstReached(Played(restaurants, players, 0, 1, 0, phase), Played(restaurants, players, 0, 1, 0, Offering(0)));
  }

  /** Two rounds in which every ballot is mixed lead to the third. */
  lemma TwoRounds(start: Game, restaurants: nat, players: nat)
    requires players >= 2 && restaurants >= 1
    requires ReachableIn(start, Played(restaurants, players, 0, 1, 0, Offering(0)), 0)
    ensures var h := restaurants / 2;
      ReachableIn(start, Played(restaurants, players, h, 3, 0, Offering(h)), restaurants + restaurants - h)
  {
    hide ReachableIn, Offers, Played;
    var h := restaurants / 2;
    OffersRow(restaurants, players, h, 2, 0, Offering(restaurants - 1));
    WholeRound(start, restaurants, players, 0, 1, 0, Played(restaurants, players, h, 2, 0, Offering(h)));
    OffersRow(restaurants, players, h, 3, 0, Offering(restaurants - 1));
    WholeRound(start, restaurants, players, h, 2, restaurants, Played(restaurants, players, h, 3, 0, Offering(h)));
  }

  /** A third one leads to the choice. */
  lemma LastRound(start: Game, restaurants: nat, players: nat, n: nat)
    requires players >= 2 && restaurants >= 1
    requires ReachableIn(start, Played(restaurants, players, restaurants / 2, 3, 0, Offering(restaurants / 2)), n)
    ensures var h := restaurants / 2;
      ReachableIn(start, Played(restaurants, players, h, ROUNDS + 1, 0, Chosen(h)), n + restaurants - h)
  {
    hide ReachableIn, Offers, Played;
    var h := restaurants / 2;
    LastChoice(restaurants, players, Offering(restaurants - 1));
    WholeRound(start, restaurants, players, h, 3, n, Played(restaurants, players, h, ROUNDS + 1, 0, Chosen(h)));
  }

  /** With two players or more, some game takes as many ballots as the bound allows before a restaurant is chosen. */
  lemma BoundIsAttained(restaurants: nat, players: nat, phase: Phase)
    requires players >= 2 && restaurants >= 1
    ensures var start := Played(restaurants, players, 0, 1, 0, phase);
      && Stored(start) && |start.rows| == restaurants && start.players == players
      && exists g: Game :: g.phase.Chosen? && ReachableIn(start, g, BallotBound(restaurants))
  {
    var start, h := Played(restaurants, players, 0, 1, 0, phase), restaurants / 2;
    assert |start.rows| == restaurants && start.players == players;
    assert Played(restaurants, players, h, ROUNDS + 1, 0, Chosen(h)).phase.Chosen?;
    hide ReachableIn, Offers, Played, Stored;
    StartOfBoard(restaurants, players, phase);
    TwoRounds(start, restaurants, players);
    LastRound(start, restaurants, players, restaurants + restaurants - h);
  }
}
