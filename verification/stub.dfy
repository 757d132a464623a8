/** The stub driver: tiles, moves and the board are bare integers, every
    player starts empty-handed, and a turn only takes one tile from a
    counter and passes play on. The game ends when no move is offered. */
module StubGame {
  import opened Options
  import opened Arithmetic

  datatype StubPlayer = StubPlayer(bag: seq<int>, score: int)

  datatype StubState = StubState(board: int, players: seq<StubPlayer>, bag: int, turn: nat)

  /** Tiles in the common bag at the start. */
  const InitialBag: int := 30

  /** A player with an empty hand and no points. */
  function NewPlayer(): (p: StubPlayer)
    ensures |p.bag| == 0 && p.score == 0
  {
    StubPlayer([], 0)
  }

  /** A fresh game: one fresh player per count (none for a count below
      one), the full bag, board 0, and the first player to move. */
  function NewGame(numPlayers: int): (gs: StubState)
    ensures |gs.players| == if numPlayers > 0 then numPlayers else 0
    ensures forall i :: 0 <= i < |gs.players| ==> gs.players[i] == NewPlayer()
    ensures gs.bag == InitialBag && gs.turn == 0 && gs.board == 0
  {
    var n := if numPlayers > 0 then numPlayers else 0;
    StubState(0, seq(n, _ => NewPlayer()), InitialBag, 0)
  }

  /** The moves on offer are the numbers below the bag count, in order;
      none once the bag is empty. */
  function GenerateMoves(gs: StubState): (ms: seq<int>)
    ensures |ms| == if gs.bag > 0 then gs.bag else 0
    ensures forall i :: 0 <= i < |ms| ==> ms[i] == i
  {
    if gs.bag > 0 then seq(gs.bag, i => i) else []
  }

  /** One turn, whatever the move: one tile fewer and the next player's
      turn, board and players untouched. With no players the remainder is
      taken by zero and the turn aborts (`None`). */
  function ApplyMove(gs: StubState, chosen: int): (r: Option<StubState>)
    ensures r.None? <==> |gs.players| == 0
    ensures r.Some? ==> && r.value.bag == gs.bag - 1
                        && r.value.board == gs.board
                        && r.value.players == gs.players
                        && r.value.turn < |gs.players|
                        && (gs.turn < |gs.players| ==>
                              r.value.turn == if gs.turn + 1 == |gs.players| then 0 else gs.turn + 1)
  {
    if |gs.players| == 0 then None
    else Some(StubState(gs.board, gs.players, gs.bag - 1, (gs.turn + 1) % |gs.players|))
  }

  /** The driver loop: take the first move while any is offered. Gives the
      final state and the number of turns played, or `None` if a turn
      aborts. */
  function Play(gs: StubState): (r: Option<(StubState, nat)>)
    ensures r.Some? ==> |GenerateMoves(r.value.0)| == 0
    ensures r.Some? ==> r.value.0.players == gs.players && r.value.0.board == gs.board
    ensures r.Some? ==> r.value.1 == (if gs.bag > 0 then gs.bag else 0)
    decreases if gs.bag > 0 then gs.bag else 0
  {
    var ms := GenerateMoves(gs);
    if |ms| == 0 then Some((gs, 0))
    else
      match ApplyMove(gs, ms[0])
      case None => None
      case Some(next) =>
        match Play(next)
        case None => None
        case Some((final, turns)) => Some((final, turns + 1))
  }

  /** With at least one player the loop plays exactly one turn per tile
      in the bag, empties it, leaves the players alone and ends with the
      turn advanced by the number of turns, modulo the player count.
      Without players it aborts exactly when there was a tile to play. */
  lemma {:induction false} PlayOutcome(gs: StubState)
    requires gs.turn < |gs.players| || |gs.players| == 0
    ensures |gs.players| == 0 ==> (Play(gs).None? <==> gs.bag > 0)
    ensures |gs.players| > 0 ==>
              && Play(gs).Some?
              && Play(gs).value.1 == (if gs.bag > 0 then gs.bag else 0)
              && Play(gs).value.0.bag == (if gs.bag > 0 then 0 else gs.bag)
              && Play(gs).value.0.players == gs.players
              && Play(gs).value.0.board == gs.board
              && Play(gs).value.0.turn == (gs.turn + Play(gs).value.1) % |gs.players|
    decreases if gs.bag > 0 then gs.bag else 0
  {
    if gs.bag > 0 && |gs.players| > 0 {
      var next := ApplyMove(gs, 0).value;
      PlayOutcome(next);
      var turns := Play(next).value.1;
      var n := |gs.players|;
      assert next.turn == (gs.turn + 1) % n;
      assert gs.turn + 1 <= n;
      if gs.turn + 1 == n {
        assert next.turn == 0;
        assert (n + turns) % n == turns % n by {
          ModCongruent(n + turns, turns, 1, n);
        }
      } else {
        assert next.turn == gs.turn + 1;
      }
    }
  }

  /** The stub driver's own game: two players, thirty turns, and play back
      with the first player. */
  lemma StubGameRunsThirtyTurns()
    ensures Play(NewGame(2)).Some?
    ensures Play(NewGame(2)).value.1 == 30
    ensures Play(NewGame(2)).value.0.bag == 0
    ensures Play(NewGame(2)).value.0.turn == 0
  {
    PlayOutcome(NewGame(2));
  }
}
