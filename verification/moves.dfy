/** What a player does on a turn. */
module Moves {
  import opened Pieces
  import opened Directions

  /** Either trade the hand back into the bag, or lay `pieces` in a line
      from `sq` towards `dir`, earning `score`. */
  datatype Move =
    | SwapPieces
    | PlacePieces(sq: Square, dir: Direction, pieces: seq<Piece>, score: nat)
}
