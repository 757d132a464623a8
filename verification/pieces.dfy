/** Tiles of the game: a colour and a shape, six of each. The tile helpers
    that the line validator calls (an index into a 36-slot table and the
    two compatibility tests) are defined here by the rules of the game. */
module Pieces {

  datatype Colour = Red | Orange | Yellow | Green | Blue | Purple

  datatype Shape = Square | Diamond | Circle | Clubs | Explosion | Cross

  datatype Piece = Piece(colour: Colour, shape: Shape)

  /** Number of distinct tiles, the size of a validator's seen table. */
  const KindCount: nat := 36

  function ColourIndex(c: Colour): (i: nat)
    ensures i < 6
  {
    match c
    case Red => 0
    case Orange => 1
    case Yellow => 2
    case Green => 3
    case Blue => 4
    case Purple => 5
  }

  function ShapeIndex(s: Shape): (i: nat)
    ensures i < 6
  {
    match s
    case Square => 0
    case Diamond => 1
    case Circle => 2
    case Clubs => 3
    case Explosion => 4
    case Cross => 5
  }

  function ColourAt(i: nat): (c: Colour)
    requires i < 6
    ensures ColourIndex(c) == i
  {
    if i == 0 then Red
    else if i == 1 then Orange
    else if i == 2 then Yellow
    else if i == 3 then Green
    else if i == 4 then Blue
    else Purple
  }

  function ShapeAt(i: nat): (s: Shape)
    requires i < 6
    ensures ShapeIndex(s) == i
  {
    if i == 0 then Square
    else if i == 1 then Diamond
    else if i == 2 then Circle
    else if i == 3 then Clubs
    else if i == 4 then Explosion
    else Cross
  }

  /** The slot of a tile in a 36-entry table. */
  function Index(p: Piece): (i: nat)
    ensures i < KindCount
  {
    ColourIndex(p.colour) * 6 + ShapeIndex(p.shape)
  }

  /** The tile stored in slot `i`; the inverse of `Index`. */
  function FromIndex(i: nat): (p: Piece)
    requires i < KindCount
    ensures Index(p) == i
  {
    Piece(ColourAt(i / 6), ShapeAt(i % 6))
  }

  /** `Index` is a bijection between tiles and 0..35. */
  lemma IndexBijective(p: Piece, q: Piece)
    ensures FromIndex(Index(p)) == p
    ensures Index(p) == Index(q) <==> p == q
  {
    var cp, sp := ColourIndex(p.colour), ShapeIndex(p.shape);
    var cq, sq := ColourIndex(q.colour), ShapeIndex(q.shape);
    assert (cp * 6 + sp) / 6 == cp && (cp * 6 + sp) % 6 == sp;
    assert (cq * 6 + sq) / 6 == cq && (cq * 6 + sq) % 6 == sq;
    assert ColourAt(cp) == p.colour by {
      assert ColourIndex(ColourAt(cp)) == cp;
    }
    assert ShapeAt(sp) == p.shape by {
      assert ShapeIndex(ShapeAt(sp)) == sp;
    }
  }

  /** Two tiles may stand side by side in a line. */
  predicate CompatibleWith(a: Piece, b: Piece)
  {
    a.colour == b.colour || a.shape == b.shape
  }

  /** A third tile continues the line fixed by the first two. */
  predicate Compatible3(first: Piece, second: Piece, next: Piece)
  {
    || (first.colour == second.colour && second.colour == next.colour)
    || (first.shape == second.shape && second.shape == next.shape)
  }

  predicate AllUnique(line: seq<Piece>)
  {
    forall i, j :: 0 <= i < j < |line| ==> line[i] != line[j]
  }

  predicate AllSameColour(line: seq<Piece>)
  {
    forall i :: 0 <= i < |line| ==> line[i].colour == line[0].colour
  }

  predicate AllSameShape(line: seq<Piece>)
  {
    forall i :: 0 <= i < |line| ==> line[i].shape == line[0].shape
  }

  /** The rule of the game: one to six distinct tiles sharing a colour or
      sharing a shape. */
  predicate IsLegalLine(line: seq<Piece>)
  {
    && 1 <= |line| <= 6
    && AllUnique(line)
    && (AllSameColour(line) || AllSameShape(line))
  }

  /** Every non-empty prefix of a legal line is legal. */
  lemma LegalPrefix(line: seq<Piece>, k: nat)
    requires IsLegalLine(line)
    requires 1 <= k <= |line|
    ensures IsLegalLine(line[..k])
  {
  }
}
