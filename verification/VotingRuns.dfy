/** Whole games: they end within a bound, and what their winner and their offers are. */
module VotingRuns {
  import opened VotingModel

  /** One vote: the row on offer and the direction. */
  datatype Ballot = Ballot(row: nat, up: bool)

  /** The rows as they are stored before the first offer. */
  ghost predicate Stored(g: Game) {
    && g.rows != [] && UniqueIds(g.rows) && g.players >= 1 && g.currRound == 1
    && forall i :: 0 <= i < |g.rows| ==>
      g.rows[i].pos == 0 && g.rows[i].neg == 0 && g.rows[i].candidate && g.rows[i].round == 1
  }

  /** A game from its first offer on: states[i + 1] is a state that votes[i] can lead to from states[i]. */
  ghost predicate IsRun(start: Game, states: seq<Game>, votes: seq<Ballot>) {
    && Stored(start) && |states| == |votes| + 1 && Offers(start, states[0])
    && forall i, j :: 0 <= i < j < |states| && j == i + 1 ==> Votes(states[i], votes[i], states[j])
  }

  ghost predicate Votes(g: Game, v: Ballot, g': Game) {
    v.row < |g.rows| && g.phase == Offering(g.rows[v.row].id) && Vote(g, v.row, v.up, g')
  }

  /** The vote is the last one of its ballot. */
  ghost predicate Completes(g: Game, v: Ballot) {
    v.row < |g.rows| && g.rows[v.row].pos + g.rows[v.row].neg + 1 == g.players
  }

  ghost function Completed(states: seq<Game>, votes: seq<Ballot>): nat
    requires |votes| <= |states|
  {
    if votes == [] then 0
    else
      var n := |votes| - 1;
      Completed(states[..n], votes[..n]) + if Completes(states[n], votes[n]) then 1 else 0
  }

  /** At most this many ballots: every restaurant once, and half of them in each of two further rounds. */
  function BallotBound(restaurants: nat): nat {
    restaurants + 2 * (restaurants - restaurants / 2)
  }

  lemma StoredSearches(g: Game)
    requires Stored(g)
    ensures Searching(g) && Left(g) <= BallotBound(|g.rows|)
  {
    SetsShareIndices(Current(g.rows, 1), {}, |g.rows|);
  }

  /** The votes in a number of ballots. */
  function VotesIn(players: nat, ballots: nat): nat {
    players * ballots
  }

  /** Row k is on offer, and the ballots completed and to come stay within the bound. */
  ghost predicate Open(start: Game, g: Game, completed: nat, votes: nat, k: nat) {
    && Playing(g, k) && completed + Left(g) <= BallotBound(|start.rows|)
    && votes == VotesIn(g.players, completed) + g.rows[k].pos + g.rows[k].neg
  }

  /** Where a run stands: the ballots completed, the votes in them and in the open one, and the bound kept. */
  ghost predicate Progress(start: Game, g: Game, completed: nat, votes: nat) {
    && SameRows(start.rows, g.rows) && g.players == start.players
    && match g.phase
      case Chosen(_) => Outcome(g) && completed <= BallotBound(|start.rows|) && votes == VotesIn(g.players, completed)
      case Offering(_) => exists k: nat :: Open(start, g, completed, votes, k)
  }

  /** A chosen restaurant was approved by all players in one ballot, or was picked after the last round. */
  ghost predicate Outcome(g: Game)
    requires g.phase.Chosen?
  {
    Unanimous(g) || AfterLastRound(g)
  }

  lemma FirstOffer(start: Game, g: Game)
    requires Stored(start) && Offers(start, g)
    ensures Progress(start, g, 0, 0)
  {
    StoredSearches(start);
    SearchSettles(start, g);
    hide Offers, Left, AfterLastRound, Stored, Playing;
    if g.phase.Offering? {
      var k: nat :| Playing(g, k) && g.rows[k].pos == g.rows[k].neg == 0;
      assert Open(start, g, 0, 0, k);
    }
  }

  lemma SameKey(g: Game, k: nat, l: nat)
    requires Playing(g, k) && l < |g.rows| && g.phase == Offering(g.rows[l].id)
    ensures k == l
  {
  }

  lemma PlayingHasBallots(g: Game, k: nat)
    requires Playing(g, k)
    ensures Left(g) >= 1
  {
    assert k in Current(g.rows, g.currRound);
  }

  lemma OneMore(players: nat, completed: nat)
    ensures VotesIn(players, completed + 1) == VotesIn(players, completed) + players
    ensures VotesIn(players, completed) == players * completed
  {
  }

  lemma ClosesBallot(start: Game, g: Game, k: nat, up: bool, g': Game, completed: nat, votes: nat)
    requires Open(start, g, completed, votes, k) && SameRows(start.rows, g.rows) && g.players == start.players
    requires Vote(g, k, up, g') && g.rows[k].pos + g.rows[k].neg + 1 == g.players
    ensures Progress(start, g', completed + 1, votes + 1)
  {
    PlayingHasBallots(g, k);
    OneMore(g.players, completed);
    hide Vote, Left, Unanimous, AfterLastRound, BallotBound, VotesIn;
    VoteCompletesBallot(g, k, up, g');
    hide Playing;
    if g'.phase.Offering? {
      var l: nat :| Playing(g', l) && g'.rows[l].pos == g'.rows[l].neg == 0;
      assert Open(start, g', completed + 1, votes + 1, l);
    }
  }

  lemma StaysInBallot(start: Game, g: Game, k: nat, up: bool, g': Game, completed: nat, votes: nat)
    requires Open(start, g, completed, votes, k) && SameRows(start.rows, g.rows) && g.players == start.players
    requires Vote(g, k, up, g') && g.rows[k].pos + g.rows[k].neg + 1 < g.players
    ensures Progress(start, g', completed, votes + 1)
  {
    hide Vote, Left, Unanimous, AfterLastRound, BallotBound, VotesIn;
    VoteWithinBallot(g, k, up, g');
    assert Open(start, g', completed, votes + 1, k);
  }

  lemma VoteProgresses(start: Game, g: Game, v: Ballot, g': Game, completed: nat, votes: nat)
    requires Progress(start, g, completed, votes) && Votes(g, v, g')
    ensures Progress(start, g', completed + if Completes(g, v) then 1 else 0, votes + 1)
  {
    var k: nat :| Open(start, g, completed, votes, k);
    SameKey(g, k, v.row);
    assert g.rows[k].pos + g.rows[k].neg < g.players;
    hide Vote, Left, Open, Playing, Progress;
    if Completes(g, v) {
      ClosesBallot(start, g, k, v.up, g', completed, votes);
    } else {
      StaysInBallot(start, g, k, v.up, g', completed, votes);
    }
  }

  lemma {:induction false} RunProgresses(start: Game, states: seq<Game>, votes: seq<Ballot>)
    requires IsRun(start, states, votes)
    ensures Progress(start, states[|votes|], Completed(states, votes), |votes|)
  {
    hide Progress, Offers, Votes;
    var n := |votes| - 1;
    if votes == [] {
      FirstOffer(start, states[0]);
    } else {
      RunProgresses(start, states[..n + 1], votes[..n]);
      assert states[..n + 1][..n] == states[..n];
      CompletedPrefix(states, votes[..n], n);
      VoteProgresses(start, states[n], votes[n], states[n + 1], Completed(states[..n], votes[..n]), n);
    }
  }

  /** Completed looks at the states before the votes only. */
  lemma {:induction false} CompletedPrefix(states: seq<Game>, votes: seq<Ballot>, n: nat)
    requires |votes| == n < |states|
    ensures Completed(states[..n + 1], votes) == Completed(states[..n], votes)
  {
    if n > 0 {
      assert states[..n + 1][..n - 1] == states[..n][..n - 1];
    }
  }

  /**
   * Every game ends with a chosen restaurant: a run has at most as many completed ballots as the bound, each of
   * exactly as many votes as there are players, and by then a restaurant has been chosen.
   */
  lemma {:induction false} GameEnds(start: Game, states: seq<Game>, votes: seq<Ballot>)
    requires IsRun(start, states, votes)
    ensures Completed(states, votes) <= BallotBound(|start.rows|)
    ensures start.players * Completed(states, votes) <= |votes| < start.players * (Completed(states, votes) + 1)
    ensures Completed(states, votes) == BallotBound(|start.rows|) ==> states[|votes|].phase.Chosen?
    ensures states[|votes|].phase.Chosen? ==> Outcome(states[|votes|])
  {
    Players(start, states, votes);
    hide *;
    RunProgresses(start, states, votes);
    ProgressBounds(start, states[|votes|], Completed(states, votes), |votes|);
  }

  /** What is left to do and what a game under way can have had are both bounded. */
  lemma ProgressBounds(start: Game, g: Game, completed: nat, votes: nat)
    requires Progress(start, g, completed, votes) && start.players >= 1
    ensures completed <= BallotBound(|start.rows|)
    ensures start.players * completed <= votes < start.players * (completed + 1)
    ensures completed == BallotBound(|start.rows|) ==> g.phase.Chosen?
    ensures g.phase.Chosen? ==> Outcome(g)
  {
    OneMore(start.players, completed);
    hide BallotBound, Left, Outcome, VotesIn;
    if g.phase.Offering? {
      var k: nat :| Open(start, g, completed, votes, k);
      PlayingHasBallots(g, k);
    }
  }

  lemma Players(start: Game, states: seq<Game>, votes: seq<Ballot>)
    requires IsRun(start, states, votes)
    ensures start.players >= 1 && |states| == |votes| + 1
  {
    hide Offers, Votes;
  }

  /** Votes lead only to states with the same rows, in which lost candidacies stay lost. */
  lemma {:induction false} RowsPersist(start: Game, states: seq<Game>, votes: seq<Ballot>, i: nat, j: nat)
    requires IsRun(start, states, votes) && i <= j < |states|
    ensures SameRows(states[i].rows, states[j].rows)
    decreases j
  {
    if i < j {
      RowsPersist(start, states, votes, i, j - 1);
      RunProgresses(start, states[..j], votes[..j - 1]);
      RunProgresses(start, states[..j + 1], votes[..j]);
      StepPersists(start, states[j - 1], votes[j - 1], states[j], Completed(states[..j], votes[..j - 1]), j - 1);
    }
  }

  lemma StepPersists(start: Game, g: Game, v: Ballot, g': Game, completed: nat, votes: nat)
    requires Progress(start, g, completed, votes) && Votes(g, v, g')
    ensures SameRows(g.rows, g'.rows)
  {
    var k: nat :| Open(start, g, completed, votes, k);
    SameKey(g, k, v.row);
    assert g.rows[k].pos + g.rows[k].neg < g.players;
    hide Vote, Left, Playing, AfterLastRound;
    if Completes(g, v) {
      VoteCompletesBallot(g, k, v.up, g');
    } else {
      VoteWithinBallot(g, k, v.up, g');
    }
  }

  /** A restaurant that has been rejected or eliminated is never offered again. */
  lemma RejectedIsNeverOffered(start: Game, states: seq<Game>, votes: seq<Ballot>, i: nat, j: nat, k: nat)
    requires IsRun(start, states, votes) && i <= j < |states| && k < |states[i].rows| && !states[i].rows[k].candidate
    ensures k < |states[j].rows| && states[j].phase != Offering(states[j].rows[k].id)
  {
    RowsPersist(start, states, votes, i, j);
    assert IsRun(start, states[..j + 1], votes[..j]) by { hide Offers, Votes, Stored; }
    RunProgresses(start, states[..j + 1], votes[..j]);
    var g := states[j];
    hide IsRun, Completed, Left;
    if g.phase.Offering? {
      var l: nat :| Open(start, g, Completed(states[..j + 1], votes[..j]), j, l);
      assert g.rows[l].candidate;
    }
  }

  // What a ballot does to its restaurant

  lemma {:induction false} SearchInRound(g: Game, g': Game)
    requires Offers(g, g') && 1 <= g.currRound <= ROUNDS + 1
    ensures g'.currRound >= g.currRound
    ensures g'.currRound == g.currRound ==> g'.rows == g.rows
    decreases ROUNDS + 1 - g.currRound
  {
    if g.currRound <= ROUNDS && Current(g.rows, g.currRound) == {} {
      var rows' :| Reduced(g.rows, rows') && Offers(g.(rows := rows', currRound := g.currRound + 1), g');
      SearchInRound(g.(rows := rows', currRound := g.currRound + 1), g');
    }
  }

  /** A restaurant that every player rejects is out for good. */
  lemma RejectedByAll(g: Game, k: nat, g': Game)
    requires Playing(g, k) && Vote(g, k, false, g') && g.rows[k].neg + 1 == g.players
    ensures k < |g'.rows| && g'.rows[k].id == g.rows[k].id && !g'.rows[k].candidate
  {
    var rows2 := Disable(AddNeg(g.rows, g.rows[k].id), g.rows[k].id);
    BallotLeavesRow(g, k, rows2);
    SearchSettles(g.(rows := rows2), g');
    hide Offers, Searching, Left, Playing;
  }

  /** A ballot without agreement moves its restaurant to the next round; while this round lasts it stays a candidate. */
  lemma MixedBallot(g: Game, k: nat, up: bool, g': Game)
    requires Playing(g, k) && Vote(g, k, up, g') && g.rows[k].pos + g.rows[k].neg + 1 == g.players
    requires (if up then g.rows[k].pos else g.rows[k].neg) + 1 < g.players
    ensures g'.currRound == g.currRound ==>
      |g'.rows| == |g.rows| && g'.rows[k].candidate && g'.rows[k].round == g.currRound + 1
  {
    var id := g.rows[k].id;
    var rows2 := NextRound(if up then AddPos(g.rows, id) else AddNeg(g.rows, id), id);
    SearchInRound(g.(rows := rows2), g');
    hide Offers;
  }
}
