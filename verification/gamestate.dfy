/** Turn bookkeeping: the game total, removing placed tiles from the hand,
    and applying a chosen move. The board update and the refill of a hand
    from the shared bag are supplied by the caller. */
module Game {
  import opened Pieces
  import opened Directions
  import opened Moves
  import opened Players
  import opened Arithmetic

  /** The board (of any representation), the players, the shared bag of
      undrawn tiles, and whose turn it is. */
  datatype GameState<B> = GameState(board: B, players: seq<PlayerState>, bag: seq<Piece>, turn: nat)

  /** The turn always names a player. */
  predicate Valid<B>(gs: GameState<B>)
  {
    gs.turn < |gs.players|
  }

  /** `put` lays tiles on the board; `resupply` refills a hand from the
      bag, returning the new hand and the new bag. */
  datatype Collaborators<!B> = Collaborators(
    put: (B, Square, Direction, seq<Piece>) -> B,
    resupply: (seq<Piece>, seq<Piece>) -> (seq<Piece>, seq<Piece>))

  function SumScores(players: seq<PlayerState>): int
    decreases |players|
  {
    if |players| == 0 then 0 else SumScores(players[..|players| - 1]) + players[|players| - 1].score
  }

  /** Replacing one player changes the sum by the change of that player's score. */
  lemma {:induction false} SumScoresUpdate(players: seq<PlayerState>, i: nat, p: PlayerState)
    requires i < |players|
    ensures SumScores(players[i := p]) == SumScores(players) - players[i].score + p.score
    decreases |players|
  {
    var n := |players| - 1;
    var updated := players[i := p];
    if i < n {
      assert updated[..n] == players[..n][i := p];
      SumScoresUpdate(players[..n], i, p);
    } else {
      assert updated[..n] == players[..n];
    }
  }

  /** total_score: the scores of all players added up. */
  method TotalScore<B>(gs: GameState<B>) returns (sum: int)
    ensures sum == SumScores(gs.players)
  {
    sum := 0;
    for i := 0 to |gs.players|
      invariant sum == SumScores(gs.players[..i])
    {
      assert gs.players[..i + 1][..i] == gs.players[..i];
      sum := sum + gs.players[i].score;
    }
    assert gs.players[..|gs.players|] == gs.players;
  }

  /** The hand with every tile equal to some placed tile removed, the
      remaining tiles in their old order. A duplicate of a placed tile is
      removed as well. */
  function Deplete(hand: seq<Piece>, placed: seq<Piece>): (r: seq<Piece>)
    ensures |r| <= |hand|
    ensures forall i :: 0 <= i < |r| ==> r[i] !in placed
    decreases |hand|
  {
    if |hand| == 0 then []
    else
      var last := hand[|hand| - 1];
      Deplete(hand[..|hand| - 1], placed) + (if last in placed then [] else [last])
  }

  /** Every tile equal to a placed one is gone; every other tile keeps all
      its copies. */
  lemma {:induction false} DepleteContents(hand: seq<Piece>, placed: seq<Piece>)
    ensures forall x :: multiset(Deplete(hand, placed))[x] == if x in placed then 0 else multiset(hand)[x]
    ensures forall x :: x in Deplete(hand, placed) <==> x in hand && x !in placed
    decreases |hand|
  {
    if |hand| > 0 {
      var init := hand[..|hand| - 1];
      var last := hand[|hand| - 1];
      assert hand == init + [last];
      DepleteContents(init, placed);
      assert multiset(hand) == multiset(init) + multiset{last};
    }
  }

  /** Removing tiles works piecewise: the survivors of a concatenation are
      the survivors of each part, in order. */
  lemma {:induction false} DepleteConcat(a: seq<Piece>, b: seq<Piece>, placed: seq<Piece>)
    ensures Deplete(a + b, placed) == Deplete(a, placed) + Deplete(b, placed)
    decreases |b|
  {
    if |b| == 0 {
      assert a + b == a;
    } else {
      var init := b[..|b| - 1];
      assert (a + b)[..|a + b| - 1] == a + init;
      assert (a + b)[|a + b| - 1] == b[|b| - 1];
      DepleteConcat(a, init, placed);
    }
  }

  /** The removal loop of apply_move: each tile of the hand is compared
      with every placed tile and kept only if none is equal. */
  method DepleteBag(hand: seq<Piece>, placed: seq<Piece>) returns (depleted: seq<Piece>)
    ensures depleted == Deplete(hand, placed)
  {
    depleted := [];
    for i := 0 to |hand|
      invariant depleted == Deplete(hand[..i], placed)
    {
      var existing := hand[i];
      var matched := false;
      var j := 0;
      while j < |placed| && !matched
        invariant 0 <= j <= |placed|
        invariant matched <==> existing in placed[..j]
      {
        assert placed[..j + 1] == placed[..j] + [placed[j]];
        if existing == placed[j] {
          matched := true;
        }
        j := j + 1;
      }
      assert !matched ==> placed[..j] == placed;
      assert hand[..i + 1][..i] == hand[..i];
      if !matched {
        depleted := depleted + [existing];
      }
    }
    assert hand[..|hand|] == hand;
  }

  /** apply_move: place or swap for the player whose turn it is, then pass
      the turn on. Other players are untouched. */
  function ApplyMove<B>(env: Collaborators<B>, gs: GameState<B>, m: Move): (r: GameState<B>)
    requires Valid(gs)
    ensures Valid(r)
    ensures |r.players| == |gs.players|
    ensures r.turn == (gs.turn + 1) % |gs.players|
    ensures forall i :: 0 <= i < |gs.players| && i != gs.turn ==> r.players[i] == gs.players[i]
    ensures m.PlacePieces? ==>
              && r.board == env.put(gs.board, m.sq, m.dir, m.pieces)
              && r.players[gs.turn].score == gs.players[gs.turn].score + m.score
              && (r.players[gs.turn].bag, r.bag)
                 == env.resupply(Deplete(gs.players[gs.turn].bag, m.pieces), gs.bag)
    ensures m.SwapPieces? ==>
              && r.board == gs.board
              && r.players[gs.turn].score == gs.players[gs.turn].score
              && (r.players[gs.turn].bag, r.bag) == env.resupply([], gs.bag + gs.players[gs.turn].bag)
  {
    var current := gs.players[gs.turn];
    var next := (gs.turn + 1) % |gs.players|;
    match m
    case PlacePieces(sq, dir, pieces, score) =>
      var (hand, bag) := env.resupply(Deplete(current.bag, pieces), gs.bag);
      var players := MutateCurrent(gs.turn, gs.players, (p: PlayerState) => PlayerState(hand, p.score + score));
      GameState(env.put(gs.board, sq, dir, pieces), players, bag, next)
    case SwapPieces =>
      var (hand, bag) := env.resupply([], gs.bag + current.bag);
      var players := MutateCurrent(gs.turn, gs.players, (p: PlayerState) => PlayerState(hand, p.score));
      GameState(gs.board, players, bag, next)
  }

  /** The score a move adds to the game total. */
  function MoveScore(m: Move): nat
  {
    if m.PlacePieces? then m.score else 0
  }

  /** A placement raises the game total by exactly its score; a swap leaves
      it unchanged. */
  lemma ApplyMoveTotalScore<B>(env: Collaborators<B>, gs: GameState<B>, m: Move)
    requires Valid(gs)
    ensures SumScores(ApplyMove(env, gs, m).players) == SumScores(gs.players) + MoveScore(m)
  {
    var r := ApplyMove(env, gs, m);
    assert r.players == gs.players[gs.turn := r.players[gs.turn]];
    SumScoresUpdate(gs.players, gs.turn, r.players[gs.turn]);
  }

  /** The state after a sequence of moves, applied in order. */
  function ApplyMoves<B>(env: Collaborators<B>, gs: GameState<B>, ms: seq<Move>): (r: GameState<B>)
    requires Valid(gs)
    ensures Valid(r) && |r.players| == |gs.players|
    decreases |ms|
  {
    if |ms| == 0 then gs else ApplyMoves(env, ApplyMove(env, gs, ms[0]), ms[1..])
  }

  function SumMoveScores(ms: seq<Move>): nat
    decreases |ms|
  {
    if |ms| == 0 then 0 else MoveScore(ms[0]) + SumMoveScores(ms[1..])
  }

  /** After k moves the turn has advanced k places round the table, and
      the game total has grown by the scores of the placements. */
  lemma {:induction false} ApplyMovesRotates<B>(env: Collaborators<B>, gs: GameState<B>, ms: seq<Move>)
    requires Valid(gs)
    ensures ApplyMoves(env, gs, ms).turn == (gs.turn + |ms|) % |gs.players|
    ensures SumScores(ApplyMoves(env, gs, ms).players) == SumScores(gs.players) + SumMoveScores(ms)
    decreases |ms|
  {
    if |ms| > 0 {
      var next := ApplyMove(env, gs, ms[0]);
      ApplyMovesRotates(env, next, ms[1..]);
      ApplyMoveTotalScore(env, gs, ms[0]);
      var n := |gs.players|;
      assert next.turn == (gs.turn + 1) % n;
      ModAddMod(gs.turn + 1, |ms| - 1, n);
    }
  }
}
