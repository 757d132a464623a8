/** A scored candidate line under construction: an immutable search node
    that grows one tile at a time. */
module Partials {
  import opened Pieces
  import opened Directions

  datatype PartialScored = PartialScored(
    pieces: seq<Piece>,
    lastSquare: Square,
    mainlineScore: nat,
    perpScores: nat)

  /** A one-tile line at `square`, nothing scored yet. */
  function New(piece: Piece, square: Square): (p: PartialScored)
    ensures p.pieces == [piece]
    ensures p.lastSquare == square
    ensures p.mainlineScore == 0 && p.perpScores == 0
  {
    PartialScored([piece], square, 0, 0)
  }

  /** The node one tile longer: `nextPiece` is appended, the last square
      moves one step along `direction`, the mainline score is replaced and
      the perpendicular score accumulates. The receiver is a value and is
      left as it was. */
  function Extend(p: PartialScored, newMainlineScore: nat, newPerpScore: nat,
                  direction: Direction, nextPiece: Piece): (r: PartialScored)
    ensures |r.pieces| == |p.pieces| + 1
    ensures r.pieces[..|p.pieces|] == p.pieces && r.pieces[|p.pieces|] == nextPiece
    ensures r.lastSquare == Shift(p.lastSquare, direction, 1)
    ensures r.mainlineScore == newMainlineScore
    ensures r.perpScores == p.perpScores + newPerpScore
  {
    PartialScored(p.pieces + [nextPiece], Apply(direction, p.lastSquare),
                  newMainlineScore, p.perpScores + newPerpScore)
  }

  /** One extension step: the tile added and the two scores passed along. */
  datatype Step = Step(piece: Piece, mainlineScore: nat, perpScore: nat)

  /** Extends `p` by every step in turn, always in `direction`. */
  function ExtendAlong(p: PartialScored, direction: Direction, steps: seq<Step>): PartialScored
    decreases |steps|
  {
    if |steps| == 0 then p
    else
      var s := steps[|steps| - 1];
      Extend(ExtendAlong(p, direction, steps[..|steps| - 1]), s.mainlineScore, s.perpScore, direction, s.piece)
  }

  function StepPieces(steps: seq<Step>): (ps: seq<Piece>)
    ensures |ps| == |steps|
    ensures forall i :: 0 <= i < |steps| ==> ps[i] == steps[i].piece
  {
    seq(|steps|, i requires 0 <= i < |steps| => steps[i].piece)
  }

  function SumPerp(steps: seq<Step>): nat
    decreases |steps|
  {
    if |steps| == 0 then 0 else SumPerp(steps[..|steps| - 1]) + steps[|steps| - 1].perpScore
  }

  /** After k extensions in one direction the line holds the old tiles and
      then the k new ones, its last square has moved k steps, the
      perpendicular scores have all been added and the mainline score is
      the one given last. */
  lemma {:induction false} ExtendAlongShape(p: PartialScored, direction: Direction, steps: seq<Step>)
    ensures ExtendAlong(p, direction, steps).pieces == p.pieces + StepPieces(steps)
    ensures ExtendAlong(p, direction, steps).lastSquare == Shift(p.lastSquare, direction, |steps|)
    ensures ExtendAlong(p, direction, steps).perpScores == p.perpScores + SumPerp(steps)
    ensures |steps| > 0 ==> ExtendAlong(p, direction, steps).mainlineScore == steps[|steps| - 1].mainlineScore
    ensures |steps| == 0 ==> ExtendAlong(p, direction, steps) == p
    decreases |steps|
  {
    if |steps| > 0 {
      var init := steps[..|steps| - 1];
      ExtendAlongShape(p, direction, init);
      assert StepPieces(steps) == StepPieces(init) + [steps[|steps| - 1].piece];
    }
  }

  /** Starting from a single tile, k extensions give k + 1 tiles with the
      last one k steps from the start. */
  lemma NewThenExtend(piece: Piece, square: Square, direction: Direction, steps: seq<Step>)
    ensures |ExtendAlong(New(piece, square), direction, steps).pieces| == |steps| + 1
    ensures ExtendAlong(New(piece, square), direction, steps).pieces[0] == piece
    ensures ExtendAlong(New(piece, square), direction, steps).lastSquare == Shift(square, direction, |steps|)
  {
    ExtendAlongShape(New(piece, square), direction, steps);
  }
}
