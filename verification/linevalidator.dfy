/** Incremental check that a growing run of tiles is still a legal line.
    A validator remembers the first tile, the second once one is accepted,
    a 36-slot table of the tiles seen so far, and the current length. */
module LineValidation {
  import opened Options
  import opened Pieces

  /** No line is longer than this. */
  const MaxLength: nat := 6

  /** The fixed-size `[bool; 36]` table of tiles already in the line. */
  type SeenTable = s: seq<bool> | |s| == KindCount witness EmptyTable()

  function EmptyTable(): seq<bool>
  {
    seq(KindCount, _ => false)
  }

  datatype LineValidator = LineValidator(
    seenAlready: SeenTable,
    firstPiece: Piece,
    secondPiece: Option<Piece>,
    length: nat)

  /** Number of `true` slots of a table. */
  function CountTrue(s: seq<bool>): nat
    decreases |s|
  {
    if |s| == 0 then 0 else (if s[0] then 1 else 0) + CountTrue(s[1..])
  }

  /** A validator for the one-tile line `[first]`. */
  function New(first: Piece): (v: LineValidator)
    ensures v.length == 1
    ensures v.secondPiece == None && v.firstPiece == first
    ensures forall p :: v.seenAlready[Index(p)] <==> p == first
    ensures CountTrue(v.seenAlready) == 1
  {
    IndexInjective();
    CountTrueOfEmpty(KindCount);
    CountTrueSet(EmptyTable(), Index(first));
    LineValidator(EmptyTable()[Index(first) := true], first, None, 1)
  }

  /** Offers `newPiece` as the next tile. The answer says whether it was
      accepted; the validator returned is the extended one on acceptance
      and the unchanged one on rejection. */
  function AddPiece(v: LineValidator, newPiece: Piece): (r: (bool, LineValidator))
    ensures !r.0 ==> r.1 == v
    ensures v.length == MaxLength ==> !r.0
    ensures v.seenAlready[Index(newPiece)] ==> !r.0
    ensures r.0 <==> && v.length != MaxLength
                     && !v.seenAlready[Index(newPiece)]
                     && (match v.secondPiece
                         case None => CompatibleWith(v.firstPiece, newPiece)
                         case Some(p2) => Compatible3(v.firstPiece, p2, newPiece))
    ensures r.0 ==> && r.1.length == v.length + 1
                    && r.1.firstPiece == v.firstPiece
                    && r.1.secondPiece == (if v.secondPiece.None? then Some(newPiece) else v.secondPiece)
                    && r.1.seenAlready[Index(newPiece)]
                    && (forall i :: 0 <= i < KindCount && i != Index(newPiece) ==>
                          r.1.seenAlready[i] == v.seenAlready[i])
  {
    if v.length == MaxLength then (false, v)
    else if v.seenAlready[Index(newPiece)] then (false, v)
    else
      match v.secondPiece
      case None =>
        if !CompatibleWith(v.firstPiece, newPiece) then (false, v)
        else (true, v.(secondPiece := Some(newPiece), length := v.length + 1,
                       seenAlready := v.seenAlready[Index(newPiece) := true]))
      case Some(p2) =>
        if !Compatible3(v.firstPiece, p2, newPiece) then (false, v)
        else (true, v.(length := v.length + 1,
                       seenAlready := v.seenAlready[Index(newPiece) := true]))
  }

  /** A copy shares no state with the original, so extending either one
      leaves the other as it was. */
  function Clone(v: LineValidator): (c: LineValidator)
    ensures c == v
  {
    LineValidator(v.seenAlready, v.firstPiece, v.secondPiece, v.length)
  }

  /** Offers every tile of `xs` in order; `None` at the first rejection. */
  function ExtendAll(v: LineValidator, xs: seq<Piece>): Option<LineValidator>
    decreases |xs|
  {
    if |xs| == 0 then Some(v)
    else
      var (ok, next) := AddPiece(v, xs[0]);
      if ok then ExtendAll(next, xs[1..]) else None
  }

  /** Validates a whole line from scratch: a validator on its first tile,
      then every other tile offered in turn. */
  function Validate(line: seq<Piece>): Option<LineValidator>
  {
    if |line| == 0 then None else ExtendAll(New(line[0]), line[1..])
  }

  /** The invariant linking a validator to the tiles it has accepted: they
      form a legal line, the table marks exactly those tiles, and as many
      slots are marked as the length says. */
  ghost predicate Tracks(v: LineValidator, line: seq<Piece>)
  {
    && IsLegalLine(line)
    && v.firstPiece == line[0]
    && v.length == |line|
    && v.secondPiece == (if |line| >= 2 then Some(line[1]) else None)
    && (forall p :: v.seenAlready[Index(p)] <==> p in line)
    && CountTrue(v.seenAlready) == v.length
  }

  lemma IndexInjective()
    ensures forall p, q :: Index(p) == Index(q) ==> p == q
  {
    forall p, q ensures Index(p) == Index(q) ==> p == q {
      IndexBijective(p, q);
    }
  }

  lemma {:induction false} CountTrueOfEmpty(n: nat)
    ensures CountTrue(seq(n, _ => false)) == 0
  {
    if n > 0 {
      assert seq(n, _ => false)[1..] == seq(n - 1, _ => false);
      CountTrueOfEmpty(n - 1);
    }
  }

  /** Marking an unmarked slot adds one to the count. */
  lemma {:induction false} CountTrueSet(s: seq<bool>, i: nat)
    requires i < |s| && !s[i]
    ensures CountTrue(s[i := true]) == CountTrue(s) + 1
    decreases |s|
  {
    if i > 0 {
      assert s[i := true][1..] == s[1..][i - 1 := true];
      CountTrueSet(s[1..], i - 1);
    }
  }

  lemma NewTracks(p: Piece)
    ensures Tracks(New(p), [p])
  {
  }

  /** One step of the validator, against the invariant: the tile is
      accepted exactly when the longer line is still legal, and then the
      invariant holds of the longer line. */
  lemma AddPieceTracks(v: LineValidator, line: seq<Piece>, x: Piece)
    requires Tracks(v, line)
    ensures AddPiece(v, x).0 <==> IsLegalLine(line + [x])
    ensures AddPiece(v, x).0 ==> Tracks(AddPiece(v, x).1, line + [x])
  {
    var ext := line + [x];
    IndexInjective();
    if AddPiece(v, x).0 {
      var v' := AddPiece(v, x).1;
      assert x !in line;
      assert AllUnique(ext);
      if |line| == 1 {
        assert CompatibleWith(line[0], x);
        if line[0].colour == x.colour {
          assert AllSameColour(ext);
        } else {
          assert AllSameShape(ext);
        }
      } else {
        assert Compatible3(line[0], line[1], x);
        assert line[0] != line[1];
        if line[0].colour == line[1].colour && line[1].colour == x.colour {
          assert !AllSameShape(line);
          assert AllSameColour(ext);
        } else {
          assert !AllSameColour(line);
          assert AllSameShape(ext);
        }
      }
      assert IsLegalLine(ext);
      CountTrueSet(v.seenAlready, Index(x));
      forall p ensures v'.seenAlready[Index(p)] <==> p in ext {
        if p == x {
        } else {
          assert Index(p) != Index(x);
        }
      }
      assert Tracks(v', ext);
    }
    if IsLegalLine(ext) {
      assert ext[..|line|] == line;
      assert v.length != MaxLength;
      forall k | 0 <= k < |line| ensures line[k] != x {
        assert ext[k] == line[k] && ext[|line|] == x;
      }
      assert !v.seenAlready[Index(x)];
      assert ext[0] == line[0] && ext[|line|] == x;
      if |line| == 1 {
        assert CompatibleWith(v.firstPiece, x);
      } else {
        assert ext[1] == line[1];
        assert Compatible3(v.firstPiece, line[1], x);
      }
      assert AddPiece(v, x).0;
    }
  }

  /** Offering a sequence of tiles succeeds exactly when the whole line is
      legal, and the invariant then holds of the whole line. */
  lemma {:induction false} ExtendAllTracks(v: LineValidator, line: seq<Piece>, xs: seq<Piece>)
    requires Tracks(v, line)
    ensures ExtendAll(v, xs).Some? <==> IsLegalLine(line + xs)
    ensures ExtendAll(v, xs).Some? ==> Tracks(ExtendAll(v, xs).value, line + xs)
    decreases |xs|
  {
    if |xs| == 0 {
      assert line + xs == line;
    } else {
      AddPieceTracks(v, line, xs[0]);
      assert (line + [xs[0]]) + xs[1..] == line + xs;
      if AddPiece(v, xs[0]).0 {
        ExtendAllTracks(AddPiece(v, xs[0]).1, line + [xs[0]], xs[1..]);
      } else if IsLegalLine(line + xs) {
        assert (line + xs)[..|line| + 1] == line + [xs[0]];
        LegalPrefix(line + xs, |line| + 1);
        assert false;
      }
    }
  }

  /** The validator accepts a line tile by tile exactly when the line is
      legal: one to six distinct tiles, all of one colour or all of one
      shape. On acceptance its length is the line's length and its table
      marks exactly the line's tiles. */
  lemma ValidateAcceptsExactlyLegalLines(line: seq<Piece>)
    ensures Validate(line).Some? <==> IsLegalLine(line)
    ensures Validate(line).Some? ==> Tracks(Validate(line).value, line)
  {
    if |line| > 0 {
      NewTracks(line[0]);
      ExtendAllTracks(New(line[0]), [line[0]], line[1..]);
      assert [line[0]] + line[1..] == line;
    }
  }

  /** A validator that has reached six tiles rejects every further tile. */
  lemma FullLineRejects(v: LineValidator, line: seq<Piece>, x: Piece)
    requires Tracks(v, line) && |line| == MaxLength
    ensures !AddPiece(v, x).0
    ensures Validate(line + [x]).None?
  {
    ValidateAcceptsExactlyLegalLines(line + [x]);
  }

  /** A tile already in the line, the first one included, is rejected. */
  lemma RepeatRejects(v: LineValidator, line: seq<Piece>, k: nat)
    requires Tracks(v, line) && k < |line|
    ensures !AddPiece(v, line[k]).0
  {
  }
}
