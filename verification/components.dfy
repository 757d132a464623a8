/** The older all-in-one revision: unsigned coordinates, a fixed 50 x 50
    board indexed with an offset of 25, and a placement check against it.
    Its `uint` is 64 bits wide and wraps around, so a step below zero lands
    on 2^64 - 1; read as a signed number the board covers -25..24. Tiles are
    plain unsigned numbers here, with the tile tests supplied by the caller. */
module Components {
  import opened Options
  import opened Directions
  import opened Arithmetic

  const WordModulus: int := 0x1_0000_0000_0000_0000

  /** An unsigned machine word. */
  type Word = x: int | 0 <= x < WordModulus

  type USquare = (Word, Word)

  /** Offset added to each coordinate before indexing the board. */
  const Margin: int := 25

  /** Side of the square board array. */
  const Side: int := 50

  function Wrap(x: int): Word
  {
    x % WordModulus
  }

  /** The two's-complement reading of a word. */
  function Signed(w: Word): int
  {
    if w < WordModulus / 2 then w else w - WordModulus
  }

  function WrapSquare(sq: Square): USquare
  {
    (Wrap(sq.0), Wrap(sq.1))
  }

  lemma WrapWord(w: int)
    requires 0 <= w < WordModulus
    ensures Wrap(w) == w
  {
    ModCongruent(w, w, 0, WordModulus);
  }

  /** A step of one from a word wraps only at the two ends. */
  lemma WordStep(w: Word)
    ensures Wrap(w + 1) == if w == WordModulus - 1 then 0 else w + 1
    ensures Wrap(w - 1) == if w == 0 then WordModulus - 1 else w - 1
  {
    if w == WordModulus - 1 {
      ModCongruent(w + 1, 0, 1, WordModulus);
      WrapWord(0);
      WrapWord(w - 1);
    } else if w == 0 {
      ModCongruent(w - 1, WordModulus - 1, -1, WordModulus);
      WrapWord(WordModulus - 1);
      WrapWord(w + 1);
    } else {
      WrapWord(w + 1);
      WrapWord(w - 1);
    }
  }

  lemma WrapAdd(a: int, b: int)
    ensures Wrap(Wrap(a) + b) == Wrap(a + b)
  {
    ModAddMod(a, b, WordModulus);
  }

  /** One step on unsigned squares. It is the signed step reduced modulo
      2^64, and an exact step whenever no coordinate crosses zero. */
  function UApply(d: Direction, sq: USquare): (r: USquare)
    ensures r == WrapSquare(Apply(d, sq))
    ensures d == D && sq.1 > 0 ==> r == (sq.0, sq.1 - 1)
    ensures d == L && sq.0 > 0 ==> r == (sq.0 - 1, sq.1)
    ensures d == D && sq.1 == 0 ==> r.1 == WordModulus - 1
    ensures d == L && sq.0 == 0 ==> r.0 == WordModulus - 1
  {
    var (x, y) := sq;
    WordStep(x);
    WordStep(y);
    WrapWord(x);
    WrapWord(y);
    match d
    case U => (x, if y == WordModulus - 1 then 0 else y + 1)
    case D => (x, if y == 0 then WordModulus - 1 else y - 1)
    case L => (if x == 0 then WordModulus - 1 else x - 1, y)
    case R => (if x == WordModulus - 1 then 0 else x + 1, y)
  }

  /** The `len` squares of a line from `sq` towards `d`: the signed line
      reduced modulo 2^64, each the step of the one before. */
  function UApplyAll(d: Direction, sq: USquare, len: nat): (r: seq<USquare>)
    ensures |r| == len
    ensures len > 0 ==> r[0] == sq
    ensures forall i :: 0 <= i < len - 1 ==> r[i + 1] == UApply(d, r[i])
    decreases len
  {
    if len == 0 then [] else [sq] + UApplyAll(d, UApply(d, sq), len - 1)
  }

  /** The unsigned line is the signed line reduced modulo 2^64. */
  lemma {:induction false} UApplyAllWraps(d: Direction, sq: USquare, len: nat)
    ensures forall i :: 0 <= i < len ==> UApplyAll(d, sq, len)[i] == WrapSquare(Shift(sq, d, i))
    decreases len
  {
    if len > 0 {
      var rest := UApplyAll(d, UApply(d, sq), len - 1);
      UApplyAllWraps(d, UApply(d, sq), len - 1);
      assert UApplyAll(d, sq, len) == [sq] + rest;
      forall i | 0 <= i < len ensures UApplyAll(d, sq, len)[i] == WrapSquare(Shift(sq, d, i)) {
        if i == 0 {
          WrapWord(sq.0);
          WrapWord(sq.1);
        } else {
          assert UApplyAll(d, sq, len)[i] == rest[i - 1];
          ShiftAfterStep(sq, d, i - 1);
        }
      }
    }
  }

  /** Walking `i` further from the square after `sq` is walking `i + 1`
      from `sq`, modulo 2^64. */
  lemma ShiftAfterStep(sq: USquare, d: Direction, i: int)
    ensures WrapSquare(Shift(UApply(d, sq), d, i)) == WrapSquare(Shift(sq, d, i + 1))
  {
    match d {
      case U => WrapAdd(sq.1 + 1, i);
      case D => WrapAdd(sq.1 - 1, -i);
      case L => WrapAdd(sq.0 - 1, -i);
      case R => WrapAdd(sq.0 + 1, i);
    }
    WrapWord(sq.0);
    WrapWord(sq.1);
  }

  /** The board array: 50 rows of 50 cells. */
  type Grid = g: seq<seq<Word>> | |g| == Side && forall i :: 0 <= i < |g| ==> |g[i]| == Side
    witness seq(Side, _ => seq(Side, _ => 0))

  datatype Board = Board(board: Grid)

  /** A board with every cell 0. */
  function NewBoard(): (b: Board)
    ensures forall i, j :: 0 <= i < Side && 0 <= j < Side ==> b.board[i][j] == 0
  {
    Board(seq(Side, _ => seq(Side, _ => 0)))
  }

  /** A copy of the board, equal to it in every cell. */
  function CloneBoard(b: Board): (c: Board)
    ensures c == b
  {
    Board(b.board)
  }

  /** The signed reading of a coordinate lies inside the board's margin. */
  predicate InMargin(w: Word)
  {
    -Margin <= Signed(w) < Margin
  }

  /** The cell at `sq`, or `None` where the offset index falls outside
      the array (qwirkler aborts there). Exactly the squares whose
      signed coordinates lie in -25..24 are on the board. */
  function Get(b: Board, sq: USquare): (r: Option<Word>)
    ensures r.Some? <==> InMargin(sq.0) && InMargin(sq.1)
    ensures r.Some? ==> r.value == b.board[Signed(sq.0) + Margin][Signed(sq.1) + Margin]
  {
    var i := Wrap(sq.0 + Margin);
    var j := Wrap(sq.1 + Margin);
    if i < Side && j < Side then Some(b.board[i][j]) else None
  }

  /** Small unsigned coordinates are read at index coordinate + 25. */
  lemma GetSmallSquare(b: Board, sq: USquare)
    requires sq.0 < Margin && sq.1 < Margin
    ensures Get(b, sq) == Some(b.board[sq.0 + Margin][sq.1 + Margin])
  {
  }

  /** The candidate starting points: always the single pair (origin, R). */
  function GetStartSquares(b: Board): (r: seq<(USquare, Direction)>)
    ensures |r| == 1
    ensures r[0].0 == (0, 0) && r[0].1 == Initial()
  {
    [((0, 0), R)]
  }

  /** Every start square offered can be read on any board. */
  lemma StartSquaresOnBoard(b: Board)
    ensures forall k :: 0 <= k < |GetStartSquares(b)| ==> Get(b, GetStartSquares(b)[k].0).Some?
  {
  }

  /** The tile tests of this revision, on the board's unsigned cells. */
  datatype PieceOps = PieceOps(
    isBlank: Word -> bool,
    allUnique: seq<Word> -> bool,
    allSameColour: seq<Word> -> bool,
    allSameShape: seq<Word> -> bool)

  datatype PlacementMove =
    | SwapPieces
    | PlacePieces(start: USquare, direction: Direction, pieces: seq<Word>)

  predicate IsBlankAt(b: Board, ops: PieceOps, sq: USquare)
  {
    Get(b, sq).Some? && ops.isBlank(Get(b, sq).value)
  }

  /** The emptiness loop of `allows_move`, square by square: `Some(false)`
      at the first occupied square, `None` at the first square off the
      board, `Some(true)` when every square is on the board and blank. */
  function ScanBlank(b: Board, ops: PieceOps, sqs: seq<USquare>): (r: Option<bool>)
    ensures r == Some(true) <==> forall i :: 0 <= i < |sqs| ==> IsBlankAt(b, ops, sqs[i])
    ensures r == Some(false) ==>
              exists i :: 0 <= i < |sqs| && Get(b, sqs[i]).Some? && !ops.isBlank(Get(b, sqs[i]).value)
    ensures r == None ==> exists i :: 0 <= i < |sqs| && Get(b, sqs[i]).None?
    decreases |sqs|
  {
    if |sqs| == 0 then Some(true)
    else
      var rest := ScanBlank(b, ops, sqs[1..]);
      assert forall i :: 0 <= i < |sqs| - 1 ==> sqs[1..][i] == sqs[i + 1];
      match Get(b, sqs[0])
      case None => None
      case Some(p) => if !ops.isBlank(p) then Some(false) else rest
  }

  /** The lines a placement forms. This revision returns only the placed
      tiles themselves. */
  function GetNewlyFormedLines(start: USquare, direction: Direction, pieces: seq<Word>): (lines: seq<seq<Word>>)
    ensures |lines| == 1 && lines[0] == pieces
  {
    [pieces]
  }

  /** Every line has no repeated tile and is of one colour or one shape. */
  function LinesOk(ops: PieceOps, lines: seq<seq<Word>>): (ok: bool)
    ensures ok <==> forall k :: 0 <= k < |lines| ==>
                      ops.allUnique(lines[k]) && (ops.allSameColour(lines[k]) || ops.allSameShape(lines[k]))
    decreases |lines|
  {
    if |lines| == 0 then true
    else
      assert forall k :: 0 <= k < |lines| - 1 ==> lines[1..][k] == lines[k + 1];
      if !ops.allUnique(lines[0]) then false
      else if !ops.allSameColour(lines[0]) && !ops.allSameShape(lines[0]) then false
      else LinesOk(ops, lines[1..])
  }

  /** allows_move: a swap is always allowed; a placement is allowed exactly
      when every square it covers is on the board and blank and the placed
      tiles are distinct and share a colour or a shape. `None` means a
      covered square is off the board before any occupied one is met. */
  function AllowsMove(b: Board, ops: PieceOps, m: PlacementMove): (r: Option<bool>)
    ensures m.SwapPieces? ==> r == Some(true)
    ensures m.PlacePieces? ==>
              (r == Some(true) <==>
                 && (forall i :: 0 <= i < |m.pieces| ==>
                       IsBlankAt(b, ops, WrapSquare(Shift(m.start, m.direction, i))))
                 && ops.allUnique(m.pieces)
                 && (ops.allSameColour(m.pieces) || ops.allSameShape(m.pieces)))
    ensures m.PlacePieces? && r == None ==>
              exists i :: 0 <= i < |m.pieces| && Get(b, WrapSquare(Shift(m.start, m.direction, i))).None?
  {
    match m
    case SwapPieces => Some(true)
    case PlacePieces(start, direction, pieces) =>
      var squares := UApplyAll(direction, start, |pieces|);
      UApplyAllWraps(direction, start, |pieces|);
      match ScanBlank(b, ops, squares)
      case None => None
      case Some(blank) =>
        if !blank then Some(false)
        else Some(LinesOk(ops, GetNewlyFormedLines(start, direction, pieces)))
  }

  /** On a fresh board, where every cell is 0 and 0 is blank, a placement
      that stays on the board is judged by its tiles alone. */
  lemma NewBoardAllowsLine(ops: PieceOps, start: USquare, direction: Direction, pieces: seq<Word>)
    requires ops.isBlank(0)
    requires forall i :: 0 <= i < |pieces| ==> Get(NewBoard(), WrapSquare(Shift(start, direction, i))).Some?
    ensures AllowsMove(NewBoard(), ops, PlacePieces(start, direction, pieces))
            == Some(ops.allUnique(pieces) && (ops.allSameColour(pieces) || ops.allSameShape(pieces)))
  {
    var b := NewBoard();
    forall i | 0 <= i < |pieces| ensures IsBlankAt(b, ops, WrapSquare(Shift(start, direction, i))) {
      var sq := WrapSquare(Shift(start, direction, i));
      assert Get(b, sq).value == b.board[Signed(sq.0) + Margin][Signed(sq.1) + Margin];
    }
  }
}
