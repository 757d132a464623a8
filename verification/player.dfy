/** Per-player state and the combinator that updates only the player
    whose turn it is. */
module Players {
  import opened Pieces

  /** A player's hand of tiles (qwirkler calls it a bag) and score. */
  datatype PlayerState = PlayerState(bag: seq<Piece>, score: int)

  /** A player holding `bag` who has not scored yet. */
  function New(bag: seq<Piece>): (p: PlayerState)
    ensures p.bag == bag && p.score == 0
  {
    PlayerState(bag, 0)
  }

  /** The player list with the entry at `turn` replaced by `mutate` of it
      and every other entry copied. */
  function MutateCurrent(turn: nat, players: seq<PlayerState>,
                         mutate: PlayerState -> PlayerState): (r: seq<PlayerState>)
    ensures |r| == |players|
    ensures turn < |players| ==> r[turn] == mutate(players[turn])
    ensures forall i :: 0 <= i < |players| && i != turn ==> r[i] == players[i]
    ensures turn >= |players| ==> r == players
  {
    seq(|players|, i requires 0 <= i < |players| =>
      if i == turn then mutate(players[i]) else players[i])
  }

  /** Updating the current player is the sequence update at `turn`. */
  lemma MutateCurrentIsUpdate(turn: nat, players: seq<PlayerState>,
                              mutate: PlayerState -> PlayerState)
    requires turn < |players|
    ensures MutateCurrent(turn, players, mutate) == players[turn := mutate(players[turn])]
  {
  }
}
