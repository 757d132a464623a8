/** The best-move search of one turn. A queue of candidate placements is
    seeded with one single-tile candidate per (start square, direction,
    tile in hand); each popped candidate is checked by the board, and an
    accepted one is scored and extended by every tile in hand. The board
    and the extension step are supplied by the caller as an `Oracle`. */
module Search {
  import opened Options
  import opened Pieces
  import opened Directions
  import opened LineValidation
  import opened Partials
  import opened Moves

  /** A candidate placement: where the line starts, which way it runs, the
      scored tiles so far and the mainline validator (absent for a
      single tile). */
  datatype Partial = Partial(
    start: Square,
    direction: Direction,
    line: PartialScored,
    mainValidator: Option<LineValidator>)

  /** The single-tile candidate that seeds the queue. */
  function NewPartial(square: Square, direction: Direction, piece: Piece): (p: Partial)
    ensures p.start == square && p.direction == direction
    ensures p.line.pieces == [piece] && p.line.lastSquare == square
    ensures TotalScore(p) == 0 && p.mainValidator.None?
  {
    Partial(square, direction, Partials.New(piece, square), None)
  }

  function TotalScore(p: Partial): nat
  {
    p.line.mainlineScore + p.line.perpScores
  }

  function SaveAsMove(p: Partial): Move
  {
    PlacePieces(p.start, p.direction, p.line.pieces, TotalScore(p))
  }

  /** What the search asks of the board and of the extension step:
      the start squares with their directions, the board's check of a
      candidate (which also fills in its scores and validator), and the
      attempt to extend a checked candidate by one tile. */
  datatype Oracle = Oracle(
    startSquares: seq<(Square, Direction)>,
    allows: Partial -> Option<Partial>,
    tryExtend: (Partial, Piece) -> Option<Partial>)

  predicate SamePlacement(a: Partial, b: Partial)
  {
    a.start == b.start && a.direction == b.direction && a.line.pieces == b.line.pieces
  }

  /** `c` is `p` with the tile `x` appended, and no longer than a line may be. */
  predicate OneLonger(p: Partial, x: Piece, c: Partial)
  {
    && c.start == p.start
    && c.direction == p.direction
    && c.line.pieces == p.line.pieces + [x]
    && |c.line.pieces| <= MaxLength
  }

  /** The assumed behaviour of the collaborators: the board's check only
      writes scores and the validator, and an extension appends exactly the
      offered tile without passing the maximum line length. */
  ghost predicate WellBehaved(o: Oracle)
  {
    && (forall p :: o.allows(p).Some? ==> SamePlacement(o.allows(p).value, p))
    && (forall p, x :: o.tryExtend(p, x).Some? ==> OneLonger(p, x, o.tryExtend(p, x).value))
  }

  ghost predicate IsChildOf(o: Oracle, hand: seq<Piece>, s: Partial, c: Partial)
  {
    exists x :: x in hand && o.tryExtend(s, x) == Some(c)
  }

  /** The extensions of an accepted candidate `s`, one per tile of the hand
      that `tryExtend` accepts, in hand order. */
  function Children(o: Oracle, s: Partial, hand: seq<Piece>): (cs: seq<Partial>)
    ensures |cs| <= |hand|
    ensures forall x :: x in hand && o.tryExtend(s, x).Some? ==> o.tryExtend(s, x).value in cs
    ensures forall c :: c in cs ==> IsChildOf(o, hand, s, c)
    decreases |hand|
  {
    if |hand| == 0 then []
    else
      var rest := Children(o, s, hand[1..]);
      assert forall c :: c in rest ==> IsChildOf(o, hand, s, c) by {
        forall c | c in rest ensures IsChildOf(o, hand, s, c) {
          var x :| x in hand[1..] && o.tryExtend(s, x) == Some(c);
          assert x in hand;
        }
      }
      match o.tryExtend(s, hand[0])
      case None => rest
      case Some(c) => [c] + rest
  }

  function Seeds(square: Square, direction: Direction, hand: seq<Piece>): (qs: seq<Partial>)
    ensures |qs| == |hand|
    ensures forall i :: 0 <= i < |hand| ==> qs[i] == NewPartial(square, direction, hand[i])
  {
    seq(|hand|, i requires 0 <= i < |hand| => NewPartial(square, direction, hand[i]))
  }

  ghost predicate IsSeed(o: Oracle, hand: seq<Piece>, p: Partial)
  {
    && (p.start, p.direction) in o.startSquares
    && |p.line.pieces| == 1
    && p.line.pieces[0] in hand
    && p == NewPartial(p.start, p.direction, p.line.pieces[0])
  }

  /** Entry `i` of a visit order is a seed, or an extension of an earlier
      entry that the board accepted. */
  ghost predicate HasOrigin(o: Oracle, hand: seq<Piece>, s: seq<Partial>, i: int)
    requires 0 <= i < |s|
  {
    || IsSeed(o, hand, s[i])
    || exists j :: 0 <= j < i && o.allows(s[j]).Some? && IsChildOf(o, hand, o.allows(s[j]).value, s[i])
  }

  ghost predicate Grounded(o: Oracle, hand: seq<Piece>, s: seq<Partial>)
  {
    forall i :: 0 <= i < |s| ==> HasOrigin(o, hand, s, i)
  }

  /** If the board accepts `p`, every extension of it is in `s`. */
  ghost predicate ChildrenIn(o: Oracle, hand: seq<Piece>, p: Partial, s: seq<Partial>)
  {
    o.allows(p).Some? ==> forall c :: c in Children(o, o.allows(p).value, hand) ==> c in s
  }

  /** The accepted, scored candidates of a visit order, in that order. */
  function Accepted(o: Oracle, trace: seq<Partial>): (cs: seq<Partial>)
    ensures forall i :: 0 <= i < |trace| && o.allows(trace[i]).Some? ==> o.allows(trace[i]).value in cs
    ensures forall k :: 0 <= k < |cs| ==> exists i :: 0 <= i < |trace| && o.allows(trace[i]) == Some(cs[k])
    decreases |trace|
  {
    if |trace| == 0 then []
    else
      var init := trace[..|trace| - 1];
      var rest := Accepted(o, init);
      assert forall i :: 0 <= i < |init| ==> init[i] == trace[i];
      match o.allows(trace[|trace| - 1])
      case None => rest
      case Some(c) => rest + [c]
  }

  lemma {:induction false} AcceptedPrefix(o: Oracle, trace: seq<Partial>, n: nat)
    requires n <= |trace|
    ensures Accepted(o, trace[..n]) <= Accepted(o, trace)
    decreases |trace|
  {
    if n < |trace| {
      var init := trace[..|trace| - 1];
      AcceptedPrefix(o, init, n);
      assert init[..n] == trace[..n];
    } else {
      assert trace[..n] == trace;
    }
  }

  lemma AcceptedAt(o: Oracle, trace: seq<Partial>, i: nat)
    requires i < |trace| && o.allows(trace[i]).Some?
    ensures Accepted(o, trace[..i + 1]) == Accepted(o, trace[..i]) + [o.allows(trace[i]).value]
  {
    assert trace[..i + 1][..i] == trace[..i];
  }

  /** The scored form of an accepted entry i sits at the position that
      counts the accepted entries before i. */
  lemma AcceptedSlot(o: Oracle, trace: seq<Partial>, i: nat)
    requires i < |trace| && o.allows(trace[i]).Some?
    ensures |Accepted(o, trace[..i])| < |Accepted(o, trace)|
    ensures Accepted(o, trace)[|Accepted(o, trace[..i])|] == o.allows(trace[i]).value
  {
    var before := Accepted(o, trace[..i]);
    var a := before + [o.allows(trace[i]).value];
    AcceptedAt(o, trace, i);
    AcceptedPrefix(o, trace, i + 1);
    assert a[|before|] == o.allows(trace[i]).value;
  }

  /** Accepted candidates keep their visit order: the scored forms of
      accepted entries i < j of the trace sit at positions k < l, where k
      and l count the accepted entries before i and before j. */
  lemma AcceptedInOrder(o: Oracle, trace: seq<Partial>, i: nat, j: nat)
    requires i < j < |trace|
    requires o.allows(trace[i]).Some? && o.allows(trace[j]).Some?
    ensures var cs := Accepted(o, trace);
            var k := |Accepted(o, trace[..i])|;
            var l := |Accepted(o, trace[..j])|;
            && k < l < |cs|
            && cs[k] == o.allows(trace[i]).value
            && cs[l] == o.allows(trace[j]).value
  {
    AcceptedSlot(o, trace, i);
    AcceptedSlot(o, trace, j);
    var prefix := trace[..j];
    assert prefix[..i] == trace[..i];
    assert prefix[i] == trace[i];
    AcceptedSlot(o, prefix, i);
  }

  /** Keeps the best so far unless `c` scores strictly more. */
  function Consider(best: (nat, Move), c: Partial): (r: (nat, Move))
    ensures r.0 >= best.0 && r.0 >= TotalScore(c)
    ensures r.0 == best.0 ==> r == best
    ensures r != best ==> r == (TotalScore(c), SaveAsMove(c))
  {
    if TotalScore(c) > best.0 then (TotalScore(c), SaveAsMove(c)) else best
  }

  /** The best score and move after considering every candidate in order,
      starting from score 0 and a swap. */
  function PickBest(cands: seq<Partial>): (r: (nat, Move))
    ensures forall i :: 0 <= i < |cands| ==> TotalScore(cands[i]) <= r.0
    ensures r.0 == 0 ==> r.1 == SwapPieces
    ensures r.0 > 0 ==> r.1.PlacePieces? && r.1.score == r.0
    decreases |cands|
  {
    if |cands| == 0 then (0, SwapPieces)
    else
      var init := cands[..|cands| - 1];
      assert forall i :: 0 <= i < |init| ==> init[i] == cands[i];
      Consider(PickBest(init), cands[|cands| - 1])
  }

  /** Candidate `i` reaches score `b`, and every earlier one scores less. */
  predicate IsFirstBest(cands: seq<Partial>, i: int, b: nat)
  {
    && 0 <= i < |cands|
    && TotalScore(cands[i]) == b
    && forall j :: 0 <= j < i ==> TotalScore(cands[j]) < b
  }

  /** The fold selects the first candidate of maximal positive score; when
      nothing scores above zero the score stays 0 and the move a swap. */
  lemma {:induction false} PickBestFirstMax(cands: seq<Partial>)
    ensures forall i :: 0 <= i < |cands| ==> TotalScore(cands[i]) <= PickBest(cands).0
    ensures PickBest(cands).0 == 0 ==> PickBest(cands).1 == SwapPieces
    ensures PickBest(cands).0 > 0 ==>
              exists i :: IsFirstBest(cands, i, PickBest(cands).0) && PickBest(cands).1 == SaveAsMove(cands[i])
    decreases |cands|
  {
    if |cands| > 0 {
      var init := cands[..|cands| - 1];
      var c := cands[|cands| - 1];
      PickBestFirstMax(init);
      assert forall i :: 0 <= i < |init| ==> init[i] == cands[i];
      var prev := PickBest(init);
      if TotalScore(c) > prev.0 {
        assert IsFirstBest(cands, |init|, TotalScore(c));
      } else if prev.0 > 0 {
        var i :| IsFirstBest(init, i, prev.0) && prev.1 == SaveAsMove(init[i]);
        assert IsFirstBest(cands, i, prev.0);
      }
    }
  }

  /** The answer of a search whose best is `best`: nothing when the shared
      bag is empty and nothing scored, otherwise the best move. */
  function Outcome(best: (nat, Move), supply: seq<Piece>): (r: Option<Move>)
    ensures r.None? <==> |supply| == 0 && best.0 == 0
    ensures r.Some? ==> r.value == best.1
  {
    if |supply| == 0 && best.0 == 0 then None else Some(best.1)
  }

  function Pow(b: nat, e: nat): nat
    decreases e
  {
    if e == 0 then 1 else b * Pow(b, e - 1)
  }

  lemma {:induction false} PowPositive(b: nat, e: nat)
    requires b >= 1
    ensures Pow(b, e) >= 1
    decreases e
  {
    if e > 0 {
      PowPositive(b, e - 1);
      assert b * Pow(b, e - 1) >= Pow(b, e - 1);
    }
  }

  /** Termination measure of the queue: a candidate of length n weighs
      b^(6 - n), so that its at most b - 1 children weigh less. */
  function Weight(b: nat, p: Partial): nat
  {
    if |p.line.pieces| >= MaxLength then 1 else Pow(b, MaxLength - |p.line.pieces|)
  }

  lemma WeightPositive(b: nat, p: Partial)
    requires b >= 1
    ensures Weight(b, p) >= 1
  {
    if |p.line.pieces| < MaxLength {
      PowPositive(b, MaxLength - |p.line.pieces|);
    }
  }

  function QueueWeight(b: nat, q: seq<Partial>): nat
    decreases |q|
  {
    if |q| == 0 then 0 else Weight(b, q[0]) + QueueWeight(b, q[1..])
  }

  lemma {:induction false} QueueWeightAppend(b: nat, a: seq<Partial>, c: seq<Partial>)
    ensures QueueWeight(b, a + c) == QueueWeight(b, a) + QueueWeight(b, c)
    decreases |a|
  {
    if |a| == 0 {
      assert a + c == c;
    } else {
      assert (a + c)[0] == a[0];
      assert (a + c)[1..] == a[1..] + c;
      QueueWeightAppend(b, a[1..], c);
    }
  }

  /** A full-length candidate has no children. */
  lemma {:induction false} ChildrenOfFullLine(o: Oracle, s: Partial, hand: seq<Piece>)
    requires WellBehaved(o) && |s.line.pieces| >= MaxLength
    ensures Children(o, s, hand) == []
    decreases |hand|
  {
    if |hand| > 0 {
      ChildrenOfFullLine(o, s, hand[1..]);
      assert o.tryExtend(s, hand[0]).None?;
    }
  }

  lemma ScaleStep(h: nat, p: nat)
    requires h >= 1
    ensures (h - 1) * p <= h * p
    ensures (h - 1) * p + p == h * p
  {
  }

  /** Each child of a candidate of length n weighs b^(5 - n). */
  lemma {:induction false} ChildrenWeight(o: Oracle, s: Partial, hand: seq<Piece>, b: nat)
    requires WellBehaved(o) && |s.line.pieces| < MaxLength
    ensures QueueWeight(b, Children(o, s, hand)) <= |hand| * Pow(b, MaxLength - 1 - |s.line.pieces|)
    decreases |hand|
  {
    if |hand| > 0 {
      var rest := Children(o, s, hand[1..]);
      var p := Pow(b, MaxLength - 1 - |s.line.pieces|);
      ChildrenWeight(o, s, hand[1..], b);
      ScaleStep(|hand|, p);
      match o.tryExtend(s, hand[0]) {
        case None =>
          assert Children(o, s, hand) == rest;
        case Some(c) =>
          assert OneLonger(s, hand[0], c);
          assert Children(o, s, hand) == [c] + rest;
          QueueWeightAppend(b, [c], rest);
          assert [c][1..] == [];
          assert Weight(b, c) == p;
      }
    }
  }

  /** An accepted candidate's children together weigh less than it. */
  lemma ChildrenLighter(o: Oracle, s: Partial, hand: seq<Piece>)
    requires WellBehaved(o)
    ensures QueueWeight(|hand| + 1, Children(o, s, hand)) < Weight(|hand| + 1, s)
  {
    var b := |hand| + 1;
    var n := |s.line.pieces|;
    if n < MaxLength {
      ChildrenWeight(o, s, hand, b);
      var p := Pow(b, MaxLength - 1 - n);
      PowPositive(b, MaxLength - 1 - n);
      assert Weight(b, s) == b * p;
      ScaleStep(b, p);
    } else {
      ChildrenOfFullLine(o, s, hand);
    }
  }

  lemma GroundedPrefix(o: Oracle, hand: seq<Piece>, s: seq<Partial>, t: seq<Partial>)
    requires Grounded(o, hand, t) && s <= t
    ensures Grounded(o, hand, s)
  {
    forall i | 0 <= i < |s| ensures HasOrigin(o, hand, s, i) {
      assert HasOrigin(o, hand, t, i);
      if !IsSeed(o, hand, s[i]) {
        var j :| 0 <= j < i && o.allows(t[j]).Some? && IsChildOf(o, hand, o.allows(t[j]).value, t[i]);
        assert s[j] == t[j];
      }
    }
  }

  /** Appending the children of the accepted entry `k` keeps every entry
      traceable to a seed. */
  lemma GroundedExtend(o: Oracle, hand: seq<Piece>, s: seq<Partial>, k: nat, scored: Partial,
                       children: seq<Partial>)
    requires Grounded(o, hand, s)
    requires k < |s| && o.allows(s[k]) == Some(scored)
    requires forall c :: c in children ==> IsChildOf(o, hand, scored, c)
    ensures Grounded(o, hand, s + children)
  {
    var t := s + children;
    forall i | 0 <= i < |t| ensures HasOrigin(o, hand, t, i) {
      if i < |s| {
        assert t[i] == s[i];
        assert HasOrigin(o, hand, s, i);
        if !IsSeed(o, hand, s[i]) {
          var j :| 0 <= j < i && o.allows(s[j]).Some? && IsChildOf(o, hand, o.allows(s[j]).value, s[i]);
          assert t[j] == s[j];
        }
      } else {
        assert t[i] == children[i - |s|];
        assert t[k] == s[k];
        assert IsChildOf(o, hand, o.allows(t[k]).value, t[i]);
      }
    }
  }

  lemma GroundedSeeds(o: Oracle, hand: seq<Piece>, s: seq<Partial>, k: nat)
    requires Grounded(o, hand, s) && k < |o.startSquares|
    ensures Grounded(o, hand, s + Seeds(o.startSquares[k].0, o.startSquares[k].1, hand))
  {
    var seeds := Seeds(o.startSquares[k].0, o.startSquares[k].1, hand);
    var t := s + seeds;
    forall i | 0 <= i < |t| ensures HasOrigin(o, hand, t, i) {
      if i < |s| {
        assert t[i] == s[i];
        assert HasOrigin(o, hand, s, i);
        if !IsSeed(o, hand, s[i]) {
          var j :| 0 <= j < i && o.allows(s[j]).Some? && IsChildOf(o, hand, o.allows(s[j]).value, s[i]);
          assert t[j] == s[j];
        }
      } else {
        assert t[i] == seeds[i - |s|];
        assert hand[i - |s|] in hand;
        assert (o.startSquares[k].0, o.startSquares[k].1) == o.startSquares[k];
        assert IsSeed(o, hand, t[i]);
      }
    }
  }

  lemma PrefixOfLonger<T>(a: seq<T>, b: seq<T>, c: seq<T>)
    requires a <= b
    ensures a <= b + c
  {
    assert (b + c)[..|a|] == b[..|a|];
  }

  /** The children a popped candidate contributes to the queue. */
  function Expansion(o: Oracle, hand: seq<Piece>, p: Partial): seq<Partial>
  {
    match o.allows(p)
    case None => []
    case Some(scored) => Children(o, scored, hand)
  }

  /** One turn of the queue makes it lighter. */
  lemma DrainStepLighter(o: Oracle, hand: seq<Piece>, queue: seq<Partial>)
    requires WellBehaved(o) && |queue| > 0
    ensures QueueWeight(|hand| + 1, queue[1..] + Expansion(o, hand, queue[0]))
            < QueueWeight(|hand| + 1, queue)
  {
    var b := |hand| + 1;
    var partial := queue[0];
    WeightPositive(b, partial);
    assert QueueWeight(b, queue) == Weight(b, partial) + QueueWeight(b, queue[1..]);
    QueueWeightAppend(b, queue[1..], Expansion(o, hand, partial));
    match o.allows(partial) {
      case None =>
      case Some(scored) =>
        ChildrenLighter(o, scored, hand);
        assert SamePlacement(scored, partial);
        assert Weight(b, scored) == Weight(b, partial);
    }
  }

  /** One turn of the queue keeps every pushed candidate traceable to a seed. */
  lemma DrainStepGrounded(o: Oracle, hand: seq<Piece>, trace: seq<Partial>, queue: seq<Partial>)
    requires |queue| > 0
    requires Grounded(o, hand, trace + queue)
    ensures (trace + [queue[0]]) + (queue[1..] + Expansion(o, hand, queue[0]))
            == (trace + queue) + Expansion(o, hand, queue[0])
    ensures Grounded(o, hand, (trace + queue) + Expansion(o, hand, queue[0]))
  {
    var partial := queue[0];
    var pushed := trace + queue;
    var children := Expansion(o, hand, partial);
    assert (trace + [partial]) + (queue[1..] + children) == pushed + children;
    assert pushed[|trace|] == partial;
    match o.allows(partial) {
      case None =>
        assert pushed + children == pushed;
      case Some(scored) =>
        GroundedExtend(o, hand, pushed, |trace|, scored, children);
    }
  }

  /** One turn of the queue keeps every visited candidate's children pushed. */
  lemma DrainStepComplete(o: Oracle, hand: seq<Piece>, trace: seq<Partial>, queue: seq<Partial>)
    requires |queue| > 0
    requires forall j :: 0 <= j < |trace| ==> ChildrenIn(o, hand, trace[j], trace + queue)
    ensures forall j :: 0 <= j < |trace| + 1 ==>
              ChildrenIn(o, hand, (trace + [queue[0]])[j], (trace + queue) + Expansion(o, hand, queue[0]))
  {
    var partial := queue[0];
    var pushed := trace + queue;
    var children := Expansion(o, hand, partial);
    var t := pushed + children;
    forall j | 0 <= j < |trace| + 1
      ensures ChildrenIn(o, hand, (trace + [partial])[j], t)
    {
      if j < |trace| {
        assert (trace + [partial])[j] == trace[j];
        assert ChildrenIn(o, hand, trace[j], pushed);
        forall c | o.allows(trace[j]).Some? && c in Children(o, o.allows(trace[j]).value, hand)
          ensures c in t
        {
          var k :| 0 <= k < |pushed| && pushed[k] == c;
          assert t[k] == c;
        }
      } else {
        assert (trace + [partial])[j] == partial;
        forall c | o.allows(partial).Some? && c in Children(o, o.allows(partial).value, hand)
          ensures c in t
        {
          var k :| 0 <= k < |children| && children[k] == c;
          assert t[|pushed| + k] == c;
        }
      }
    }
  }

  /** Visiting one more candidate considers its scored form, if accepted. */
  lemma PickBestStep(o: Oracle, trace: seq<Partial>, p: Partial)
    ensures PickBest(Accepted(o, trace + [p])) ==
              match o.allows(p)
              case None => PickBest(Accepted(o, trace))
              case Some(scored) => Consider(PickBest(Accepted(o, trace)), scored)
  {
    assert (trace + [p])[..|trace|] == trace;
    var acc := Accepted(o, trace);
    if o.allows(p).Some? {
      assert (acc + [o.allows(p).value])[..|acc|] == acc;
    }
  }

  /** The first-in first-out visit order of a queue: pop the front
      candidate, push the children of its accepted form at the back, and
      repeat until the queue is empty. */
  function Visit(o: Oracle, hand: seq<Piece>, queue: seq<Partial>): (r: seq<Partial>)
    requires WellBehaved(o)
    ensures |queue| > 0 ==> |r| > 0 && r[0] == queue[0]
    decreases QueueWeight(|hand| + 1, queue)
  {
    if |queue| == 0 then []
    else
      DrainStepLighter(o, hand, queue);
      [queue[0]] + Visit(o, hand, queue[1..] + Expansion(o, hand, queue[0]))
  }

  /** The children contributed by each candidate of `ps`, in order. */
  function Expansions(o: Oracle, hand: seq<Piece>, ps: seq<Partial>): seq<Partial>
    decreases |ps|
  {
    if |ps| == 0 then [] else Expansion(o, hand, ps[0]) + Expansions(o, hand, ps[1..])
  }

  /** The visit order is the queue followed by the children of every
      visited candidate, taken in the order the candidates were visited. */
  lemma {:induction false} VisitIsFifo(o: Oracle, hand: seq<Piece>, queue: seq<Partial>)
    requires WellBehaved(o)
    ensures Visit(o, hand, queue) == queue + Expansions(o, hand, Visit(o, hand, queue))
    decreases QueueWeight(|hand| + 1, queue)
  {
    if |queue| > 0 {
      var q0 := queue[0];
      var e := Expansion(o, hand, q0);
      var next := queue[1..] + e;
      DrainStepLighter(o, hand, queue);
      VisitIsFifo(o, hand, next);
      var rest := Visit(o, hand, next);
      VisitStep(o, hand, [], queue);
      assert Visit(o, hand, queue) == [q0] + rest;
      ExpansionsCons(o, hand, q0, rest);
      assert queue == [q0] + queue[1..];
      SeqRegroup(q0, queue[1..], e, rest, Expansions(o, hand, rest));
    }
  }

  lemma ExpansionsCons(o: Oracle, hand: seq<Piece>, p: Partial, rest: seq<Partial>)
    ensures Expansions(o, hand, [p] + rest) == Expansion(o, hand, p) + Expansions(o, hand, rest)
  {
    assert ([p] + rest)[0] == p && ([p] + rest)[1..] == rest;
  }

  lemma SeqRegroup<T>(x: T, a: seq<T>, b: seq<T>, r: seq<T>, c: seq<T>)
    requires r == (a + b) + c
    ensures [x] + r == ([x] + a) + (b + c)
  {
  }

  /** The whole visit order of a search: for each start square in turn,
      the visit order of its seeds. */
  function SearchOrder(o: Oracle, hand: seq<Piece>, starts: seq<(Square, Direction)>): seq<Partial>
    requires WellBehaved(o)
    decreases |starts|
  {
    if |starts| == 0 then []
    else
      var last := starts[|starts| - 1];
      SearchOrder(o, hand, starts[..|starts| - 1]) + Visit(o, hand, Seeds(last.0, last.1, hand))
  }

  /** What stays true while the queue drains, `trace` holding the
      candidates popped so far: the visit order still to come is the one of
      the queue; what was queued at the start is a prefix of what was popped
      and queued since; everything queued comes from a seed; and the children
      of every popped candidate are queued. */
  ghost predicate DrainInv(o: Oracle, hand: seq<Piece>, trace0: seq<Partial>, queue0: seq<Partial>,
                           trace: seq<Partial>, queue: seq<Partial>)
    requires WellBehaved(o)
  {
    && trace0 + Visit(o, hand, queue0) == trace + Visit(o, hand, queue)
    && trace0 + queue0 <= trace + queue
    && Grounded(o, hand, trace + queue)
    && forall j :: 0 <= j < |trace| ==> ChildrenIn(o, hand, trace[j], trace + queue)
  }

  /** Popping the front candidate and queueing its children keeps the
      invariant and makes the queue lighter. */
  lemma DrainStep(o: Oracle, hand: seq<Piece>, trace0: seq<Partial>, queue0: seq<Partial>,
                  trace: seq<Partial>, queue: seq<Partial>)
    requires WellBehaved(o) && |queue| > 0
    requires DrainInv(o, hand, trace0, queue0, trace, queue)
    ensures DrainInv(o, hand, trace0, queue0, trace + [queue[0]], queue[1..] + Expansion(o, hand, queue[0]))
    ensures QueueWeight(|hand| + 1, queue[1..] + Expansion(o, hand, queue[0])) < QueueWeight(|hand| + 1, queue)
  {
    var children := Expansion(o, hand, queue[0]);
    DrainStepLighter(o, hand, queue);
    DrainStepGrounded(o, hand, trace, queue);
    DrainStepComplete(o, hand, trace, queue);
    PrefixOfLonger(trace0 + queue0, trace + queue, children);
    VisitStep(o, hand, trace, queue);
  }

  /** Popping the front candidate moves it from the visit order still to
      come onto the trace. */
  lemma VisitStep(o: Oracle, hand: seq<Piece>, trace: seq<Partial>, queue: seq<Partial>)
    requires WellBehaved(o) && |queue| > 0
    ensures trace + Visit(o, hand, queue)
            == (trace + [queue[0]]) + Visit(o, hand, queue[1..] + Expansion(o, hand, queue[0]))
  {
    assert Visit(o, hand, queue) == [queue[0]] + Visit(o, hand, queue[1..] + Expansion(o, hand, queue[0]));
  }

  /** Runs the queue dry: pops the front candidate, asks the board, and
      for an accepted one enqueues its children and keeps it as the best
      when it scores strictly more than the best so far. */
  method Drain(o: Oracle, hand: seq<Piece>, trace0: seq<Partial>, queue0: seq<Partial>,
               best0: nat, move0: Move)
    returns (trace: seq<Partial>, best: nat, move: Move)
    requires WellBehaved(o)
    requires Grounded(o, hand, trace0 + queue0)
    requires forall j :: 0 <= j < |trace0| ==> ChildrenIn(o, hand, trace0[j], trace0 + queue0)
    requires (best0, move0) == PickBest(Accepted(o, trace0))
    ensures trace == trace0 + Visit(o, hand, queue0)
    ensures trace[|trace0|..] == queue0 + Expansions(o, hand, trace[|trace0|..])
    ensures trace0 + queue0 <= trace
    ensures Grounded(o, hand, trace)
    ensures forall j :: 0 <= j < |trace| ==> ChildrenIn(o, hand, trace[j], trace)
    ensures (best, move) == PickBest(Accepted(o, trace))
  {
    trace, best, move := trace0, best0, move0;
    var queue := queue0;
    while |queue| > 0
      invariant DrainInv(o, hand, trace0, queue0, trace, queue)
      invariant (best, move) == PickBest(Accepted(o, trace))
      decreases QueueWeight(|hand| + 1, queue)
    {
      DrainStep(o, hand, trace0, queue0, trace, queue);
      PickBestStep(o, trace, queue[0]);
      var partial := queue[0];
      queue := queue[1..];
      var children: seq<Partial> := [];
      match o.allows(partial) {
        case None =>
        case Some(scored) =>
          children := Children(o, scored, hand);
          if TotalScore(scored) > best {
            best := TotalScore(scored);
            move := SaveAsMove(scored);
          }
      }
      assert children == Expansion(o, hand, partial);
      trace := trace + [partial];
      queue := queue + children;
    }
    assert trace + queue == trace;
    VisitIsFifo(o, hand, queue0);
    assert trace[|trace0|..] == Visit(o, hand, queue0);
  }

  /** generate_best_move: the answer, and the candidates visited in visit
      order. Every visited candidate is a seed or an extension of an earlier
      accepted one; every seed and every extension of an accepted candidate
      is visited; and the answer is the first accepted candidate of maximal
      positive score, a swap when nothing scores above zero but the shared
      bag still has tiles, and nothing when the bag is empty too. */
  method GenerateBestMove(o: Oracle, hand: seq<Piece>, supply: seq<Piece>)
    returns (r: Option<Move>, trace: seq<Partial>)
    requires WellBehaved(o)
    ensures trace == SearchOrder(o, hand, o.startSquares)
    ensures Grounded(o, hand, trace)
    ensures forall j :: 0 <= j < |trace| ==> ChildrenIn(o, hand, trace[j], trace)
    ensures forall k, x :: 0 <= k < |o.startSquares| && x in hand ==>
              NewPartial(o.startSquares[k].0, o.startSquares[k].1, x) in trace
    ensures r == Outcome(PickBest(Accepted(o, trace)), supply)
    ensures r.None? <==>
              |supply| == 0 && forall c :: c in Accepted(o, trace) ==> TotalScore(c) == 0
    ensures r == Some(SwapPieces) <==>
              |supply| > 0 && forall c :: c in Accepted(o, trace) ==> TotalScore(c) == 0
    ensures r.Some? && r.value.PlacePieces? ==>
              && r.value.score > 0
              && (forall c :: c in Accepted(o, trace) ==> TotalScore(c) <= r.value.score)
              && exists i :: IsFirstBest(Accepted(o, trace), i, r.value.score)
                          && r.value == SaveAsMove(Accepted(o, trace)[i])
  {
    var best: nat := 0;
    var move := SwapPieces;
    trace := [];
    for k := 0 to |o.startSquares|
      invariant trace == SearchOrder(o, hand, o.startSquares[..k])
      invariant Grounded(o, hand, trace)
      invariant forall j :: 0 <= j < |trace| ==> ChildrenIn(o, hand, trace[j], trace)
      invariant forall m, x :: 0 <= m < k && x in hand ==>
                  NewPartial(o.startSquares[m].0, o.startSquares[m].1, x) in trace
      invariant (best, move) == PickBest(Accepted(o, trace))
    {
      var (square, direction) := o.startSquares[k];
      var seeds := Seeds(square, direction, hand);
      GroundedSeeds(o, hand, trace, k);
      ghost var before := trace;
      trace, best, move := Drain(o, hand, trace, seeds, best, move);
      SeedsVisited(o, hand, before, trace, k);
      assert o.startSquares[..k + 1][..k] == o.startSquares[..k];
    }
    assert o.startSquares[..|o.startSquares|] == o.startSquares;
    r := if |supply| == 0 && best == 0 then None else Some(move);
    OutcomeIsFirstMax(Accepted(o, trace), supply);
  }

  lemma SeedsVisited(o: Oracle, hand: seq<Piece>, before: seq<Partial>, after: seq<Partial>, k: nat)
    requires k < |o.startSquares|
    requires forall m, x :: 0 <= m < k && x in hand ==>
               NewPartial(o.startSquares[m].0, o.startSquares[m].1, x) in before
    requires before + Seeds(o.startSquares[k].0, o.startSquares[k].1, hand) <= after
    ensures forall m, x :: 0 <= m <= k && x in hand ==>
              NewPartial(o.startSquares[m].0, o.startSquares[m].1, x) in after
  {
    var seeds := Seeds(o.startSquares[k].0, o.startSquares[k].1, hand);
    forall m, x | 0 <= m <= k && x in hand
      ensures NewPartial(o.startSquares[m].0, o.startSquares[m].1, x) in after
    {
      if m < k {
        var i :| 0 <= i < |before| && before[i] == NewPartial(o.startSquares[m].0, o.startSquares[m].1, x);
        assert after[i] == before[i];
      } else {
        var i :| 0 <= i < |hand| && hand[i] == x;
        assert after[|before| + i] == seeds[i];
      }
    }
  }

  /** What the answer says about the candidates it was chosen from. */
  lemma OutcomeIsFirstMax(cands: seq<Partial>, supply: seq<Piece>)
    ensures Outcome(PickBest(cands), supply).None? <==>
              |supply| == 0 && forall c :: c in cands ==> TotalScore(c) == 0
    ensures Outcome(PickBest(cands), supply) == Some(SwapPieces) <==>
              |supply| > 0 && forall c :: c in cands ==> TotalScore(c) == 0
    ensures var r := Outcome(PickBest(cands), supply);
            r.Some? && r.value.PlacePieces? ==>
              && r.value.score > 0
              && (forall c :: c in cands ==> TotalScore(c) <= r.value.score)
              && exists i :: IsFirstBest(cands, i, r.value.score) && r.value == SaveAsMove(cands[i])
  {
    PickBestFirstMax(cands);
    var (b, m) := PickBest(cands);
    if b > 0 {
      var i :| IsFirstBest(cands, i, b) && m == SaveAsMove(cands[i]);
      assert cands[i] in cands;
    }
  }

  /** Every strict prefix of a visited candidate was itself visited
      earlier, from the same start and direction, and accepted by the
      board: nothing extends a rejected prefix. */
  lemma {:induction false} PrefixesAccepted(o: Oracle, hand: seq<Piece>, trace: seq<Partial>, i: nat, k: nat)
    requires WellBehaved(o) && Grounded(o, hand, trace)
    requires i < |trace| && 1 <= k < |trace[i].line.pieces|
    ensures exists j :: && 0 <= j < i
                        && o.allows(trace[j]).Some?
                        && trace[j].start == trace[i].start
                        && trace[j].direction == trace[i].direction
                        && trace[j].line.pieces == trace[i].line.pieces[..k]
    decreases i
  {
    assert HasOrigin(o, hand, trace, i);
    assert !IsSeed(o, hand, trace[i]);
    var j :| 0 <= j < i && o.allows(trace[j]).Some? && IsChildOf(o, hand, o.allows(trace[j]).value, trace[i]);
    var scored := o.allows(trace[j]).value;
    var x :| x in hand && o.tryExtend(scored, x) == Some(trace[i]);
    assert OneLonger(scored, x, trace[i]);
    assert SamePlacement(scored, trace[j]);
    assert trace[i].line.pieces[..|trace[j].line.pieces|] == trace[j].line.pieces;
    if k < |trace[j].line.pieces| {
      PrefixesAccepted(o, hand, trace, j, k);
      var j' :| && 0 <= j' < j
                && o.allows(trace[j']).Some?
                && trace[j'].start == trace[j].start
                && trace[j'].direction == trace[j].direction
                && trace[j'].line.pieces == trace[j].line.pieces[..k];
      assert trace[i].line.pieces[..k] == trace[j].line.pieces[..k];
    }
  }

  /** A board that accepts every candidate and scores its mainline 1, with
      an extension step that never extends: every seed ties at score 1. */
  function TieOracle(): (o: Oracle)
    ensures WellBehaved(o)
  {
    Oracle([((0, 0), R)],
           (p: Partial) => Some(p.(line := p.line.(mainlineScore := 1))),
           (p: Partial, x: Piece) => None)
  }

  /** Under the tie oracle nothing has children. */
  lemma {:induction false} TieNoChildren(p: Partial, hand: seq<Piece>)
    ensures Children(TieOracle(), p, hand) == []
    decreases |hand|
  {
    if |hand| > 0 {
      TieNoChildren(p, hand[1..]);
    }
  }

  /** Under the tie oracle the visit order is the queue itself. */
  lemma {:induction false} TieVisitIsQueue(hand: seq<Piece>, queue: seq<Partial>)
    ensures Visit(TieOracle(), hand, queue) == queue
    decreases |queue|
  {
    var o := TieOracle();
    if |queue| > 0 {
      TieNoChildren(o.allows(queue[0]).value, hand);
      assert queue[1..] + Expansion(o, hand, queue[0]) == queue[1..];
      TieVisitIsQueue(hand, queue[1..]);
    }
  }

  /** Ties go to the earlier-visited candidate: with two tiles in hand
      that score the same, the search answers with the first tile's
      placement, because seeds are visited in hand order and only a
      strictly greater score replaces the best. */
  lemma FirstTileWinsTie()
    ensures var a := Piece(Red, Pieces.Square);
            var b := Piece(Red, Diamond);
            var o := TieOracle();
            Outcome(PickBest(Accepted(o, SearchOrder(o, [a, b], o.startSquares))), [])
            == Some(PlacePieces((0, 0), R, [a], 1))
  {
    var a := Piece(Red, Pieces.Square);
    var b := Piece(Red, Diamond);
    var o := TieOracle();
    var hand := [a, b];
    var sa := NewPartial((0, 0), R, a);
    var sb := NewPartial((0, 0), R, b);
    var ca := o.allows(sa).value;
    var cb := o.allows(sb).value;
    var seeds := Seeds((0, 0), R, hand);
    assert seeds == [sa, sb];
    TieVisitIsQueue(hand, seeds);
    var starts := o.startSquares;
    assert starts[..0] == [];
    assert SearchOrder(o, hand, starts) == [sa, sb];
    AcceptedOfTwo(o, sa, sb);
    PickBestOfTie(ca, cb);
  }

  lemma AcceptedOfTwo(o: Oracle, sa: Partial, sb: Partial)
    requires o.allows(sa).Some? && o.allows(sb).Some?
    ensures Accepted(o, [sa, sb]) == [o.allows(sa).value, o.allows(sb).value]
  {
    assert [sa, sb][..1] == [sa];
    assert [sa][..0] == [];
    assert Accepted(o, [sa]) == Accepted(o, []) + [o.allows(sa).value];
    assert Accepted(o, [sa, sb]) == Accepted(o, [sa]) + [o.allows(sb).value];
  }

  /** Of two candidates with the same positive score, the first is kept. */
  lemma PickBestOfTie(ca: Partial, cb: Partial)
    requires TotalScore(ca) > 0 && TotalScore(cb) == TotalScore(ca)
    ensures PickBest([ca, cb]) == (TotalScore(ca), SaveAsMove(ca))
  {
    assert [ca, cb][..1] == [ca];
    assert [ca][..0] == [];
    assert PickBest([ca]) == Consider(PickBest([]), ca);
    assert PickBest([ca]) == (TotalScore(ca), SaveAsMove(ca));
    assert PickBest([ca, cb]) == Consider(PickBest([ca]), cb);
  }
}
