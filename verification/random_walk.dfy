/** The random-walk ghost strategy: the four candidate directions, the
    reverse of a direction, the integer score each candidate gets from a
    ghost's current heading, and the order by descending score in which the
    sampler scans the candidates. Where the scan stops for a random draw is a
    parameter here. */
module RandomWalk {
  import opened Grid
  import opened Engine

  /** The direction values other than `None`, in declaration order. */
  const PossibleDirections: seq<Direction> := [Up, Down, Left, Right]

  /** The possible directions are exactly the four cardinal ones, each once. */
  lemma PossibleDirectionsAreCardinal()
    ensures forall d :: d in PossibleDirections <==> d != None
    ensures |PossibleDirections| == 4
    ensures forall i, j :: 0 <= i < j < |PossibleDirections| ==> PossibleDirections[i] != PossibleDirections[j]
  {
  }

  /** The reverse heading. It is defined for the four cardinal directions only;
      `None` has no reverse. */
  function Opposite(d: Direction): (r: Direction)
    requires d != None
    ensures r != None && r != d
    ensures forall p :: CalculateNewPosition(CalculateNewPosition(p, d), r) == p
  {
    match d
    case Up => Down
    case Down => Up
    case Left => Right
    case Right => Left
  }

  /** Reversing twice gives the original heading, and no other heading has
      the same reverse. */
  lemma OppositeInvolution(d: Direction, e: Direction)
    requires d != None && e != None
    ensures Opposite(Opposite(d)) == d
    ensures Opposite(d) == Opposite(e) <==> d == e
  {
  }

  /** The reverse moves along the same axis as the original heading. */
  lemma OppositeSameAxis(d: Direction, p: Position)
    requires d != None
    ensures CalculateNewPosition(p, Opposite(d)).x - p.x == p.x - CalculateNewPosition(p, d).x
    ensures CalculateNewPosition(p, Opposite(d)).y - p.y == p.y - CalculateNewPosition(p, d).y
  {
  }

  /** Ghost `i` can keep going straight: it has a heading and the cell ahead is
      a valid move on the board. */
  predicate CanContinue(g: GameState, i: nat)
    requires g.board.Valid() && i < |g.ghosts|
  {
    var curr := g.ghosts[i].direction;
    curr != None && IsValidMove(g.board, CalculateNewPosition(g.ghosts[i].position, curr))
  }

  /** The weight of heading `dir` for ghost `i`: uniform when the ghost cannot
      continue straight, otherwise favouring straight on, then the sides, then
      turning back. */
  function DirectionScore(g: GameState, dir: Direction, i: nat): (r: nat)
    requires g.board.Valid() && i < |g.ghosts|
    ensures r > 0
  {
    var curr := g.ghosts[i].direction;
    if curr == None then 1
    else if !IsValidMove(g.board, CalculateNewPosition(g.ghosts[i].position, curr)) then 1
    else if curr == dir then 8
    else if dir == Opposite(curr) then 2
    else 5
  }

  /** The scores of the four possible directions, in their order. */
  function Scores(g: GameState, i: nat): seq<nat>
    requires g.board.Valid() && i < |g.ghosts|
  {
    seq(|PossibleDirections|, j requires 0 <= j < |PossibleDirections| => DirectionScore(g, PossibleDirections[j], i))
  }

  function Sum(ws: seq<nat>): nat {
    if ws == [] then 0 else ws[0] + Sum(ws[1..])
  }

  lemma SumOfFour(ws: seq<nat>)
    requires |ws| == 4
    ensures Sum(ws) == ws[0] + ws[1] + ws[2] + ws[3]
  {
    assert Sum(ws[3..]) == ws[3] + Sum(ws[4..]);
    assert Sum(ws[2..]) == ws[2] + Sum(ws[2..][1..]) && ws[2..][1..] == ws[3..];
    assert Sum(ws[1..]) == ws[1] + Sum(ws[1..][1..]) && ws[1..][1..] == ws[2..];
  }

  /** A ghost that cannot continue straight weighs every direction 1. */
  lemma StuckIsUniform(g: GameState, i: nat, dir: Direction)
    requires g.board.Valid() && i < |g.ghosts|
    requires !CanContinue(g, i)
    ensures DirectionScore(g, dir, i) == 1
  {
  }

  /** A ghost that can continue weighs straight 8, reverse 2, the two sides 5. */
  lemma MovingWeights(g: GameState, i: nat, dir: Direction)
    requires g.board.Valid() && i < |g.ghosts|
    requires CanContinue(g, i) && dir != None
    ensures var curr := g.ghosts[i].direction;
      DirectionScore(g, dir, i) == (if dir == curr then 8 else if dir == Opposite(curr) then 2 else 5)
  {
  }

  /** The four weights sum to 20 for a ghost that can continue straight and to
      4 otherwise; straight on is then the unique heaviest and reverse the unique
      lightest. */
  lemma {:induction false} ScoreTotals(g: GameState, i: nat)
    requires g.board.Valid() && i < |g.ghosts|
    ensures Sum(Scores(g, i)) == if CanContinue(g, i) then 20 else 4
    ensures CanContinue(g, i) ==> forall d :: d in PossibleDirections && d != g.ghosts[i].direction ==>
      DirectionScore(g, g.ghosts[i].direction, i) > DirectionScore(g, d, i)
    ensures CanContinue(g, i) ==> forall d :: d in PossibleDirections && d != Opposite(g.ghosts[i].direction) ==>
      DirectionScore(g, Opposite(g.ghosts[i].direction), i) < DirectionScore(g, d, i)
  {
    var ws := Scores(g, i);
    SumOfFour(ws);
    if CanContinue(g, i) {
      var curr := g.ghosts[i].direction;
      assert ws[0] + ws[1] + ws[2] + ws[3] == 20 by {
        match curr
        case Up =>
        case Down =>
        case Left =>
        case Right =>
      }
    }
  }

  /** The possible directions paired with their scores for ghost `i`, in
      candidate order. */
  function Scored(g: GameState, i: nat): seq<(Direction, nat)>
    requires g.board.Valid() && i < |g.ghosts|
  {
    [(Up, DirectionScore(g, Up, i)), (Down, DirectionScore(g, Down, i)),
     (Left, DirectionScore(g, Left, i)), (Right, DirectionScore(g, Right, i))]
  }

  /** The directions of the pairs in `cs` whose score is `w`, in their order. */
  function WithScore(cs: seq<(Direction, nat)>, w: nat): seq<Direction> {
    if cs == [] then []
    else (if cs[0].1 == w then [cs[0].0] else []) + WithScore(cs[1..], w)
  }

  /** The candidates by descending score, ties keeping their order among the
      possible directions: what a stable descending sort of the scores gives.
      The scores take only the values 8, 5, 2 and 1, so collecting each value
      in turn is that sort. */
  function Ranked(g: GameState, i: nat): seq<Direction>
    requires g.board.Valid() && i < |g.ghosts|
  {
    var cs := Scored(g, i);
    WithScore(cs, 8) + WithScore(cs, 5) + WithScore(cs, 2) + WithScore(cs, 1)
  }

  /** The position of a direction among the possible directions; `None`,
      which is not among them, comes after all four. */
  function Ordinal(d: Direction): (k: nat)
    ensures d != None ==> k < |PossibleDirections| && PossibleDirections[k] == d
    ensures d == None ==> k == |PossibleDirections|
  {
    match d
    case Up => 0
    case Down => 1
    case Left => 2
    case Right => 3
    case None => 4
  }

  /** The two directions at right angles to `d`, in their order among the
      possible directions. */
  function Sides(d: Direction): seq<Direction>
    requires d != None
  {
    if d == Up || d == Down then [Left, Right] else [Up, Down]
  }

  /** Straight on, then the two sides, then back. */
  function TurnOrder(d: Direction): seq<Direction>
    requires d != None
  {
    [d] + Sides(d) + [Opposite(d)]
  }

  lemma WithScoreOfFour(cs: seq<(Direction, nat)>, w: nat)
    requires |cs| == 4
    ensures WithScore(cs, w) ==
      (if cs[0].1 == w then [cs[0].0] else []) + (if cs[1].1 == w then [cs[1].0] else [])
      + (if cs[2].1 == w then [cs[2].0] else []) + (if cs[3].1 == w then [cs[3].0] else [])
  {
    assert WithScore(cs[4..], w) == [];
    assert WithScore(cs[3..], w) == (if cs[3].1 == w then [cs[3].0] else []) + WithScore(cs[3..][1..], w);
    assert cs[3..][1..] == cs[4..] && cs[2..][1..] == cs[3..] && cs[1..][1..] == cs[2..];
    assert WithScore(cs[2..], w) == (if cs[2].1 == w then [cs[2].0] else []) + WithScore(cs[3..], w);
    assert WithScore(cs[1..], w) == (if cs[1].1 == w then [cs[1].0] else []) + WithScore(cs[2..], w);
  }

  /** Collecting the scores 8, 5, 2, 1 in turn from the four scored
      candidates, for each assignment of scores the weight rules produce. */
  lemma CollectLevels(cs: seq<(Direction, nat)>, a: nat, b: nat, c: nat, e: nat)
    requires cs == [(Up, a), (Down, b), (Left, c), (Right, e)]
    ensures var r := WithScore(cs, 8) + WithScore(cs, 5) + WithScore(cs, 2) + WithScore(cs, 1);
      && (a == 1 && b == 1 && c == 1 && e == 1 ==> r == [Up, Down, Left, Right])
      && (a == 8 && b == 2 && c == 5 && e == 5 ==> r == [Up, Left, Right, Down])
      && (a == 2 && b == 8 && c == 5 && e == 5 ==> r == [Down, Left, Right, Up])
      && (a == 5 && b == 5 && c == 8 && e == 2 ==> r == [Left, Up, Down, Right])
      && (a == 5 && b == 5 && c == 2 && e == 8 ==> r == [Right, Up, Down, Left])
  {
    WithScoreOfFour(cs, 8);
    WithScoreOfFour(cs, 5);
    WithScoreOfFour(cs, 2);
    WithScoreOfFour(cs, 1);
  }

  /** The ranked order spelled out: a ghost that cannot continue keeps the
      candidates' own order; one that can goes straight first, then the two
      sides, then back. */
  lemma RankedOrder(g: GameState, i: nat)
    requires g.board.Valid() && i < |g.ghosts|
    ensures !CanContinue(g, i) ==> Ranked(g, i) == PossibleDirections
    ensures CanContinue(g, i) ==> Ranked(g, i) == TurnOrder(g.ghosts[i].direction)
  {
    var a, b, c, e := DirectionScore(g, Up, i), DirectionScore(g, Down, i), DirectionScore(g, Left, i), DirectionScore(g, Right, i);
    CollectLevels(Scored(g, i), a, b, c, e);
    if !CanContinue(g, i) {
      StuckIsUniform(g, i, Up);
      StuckIsUniform(g, i, Down);
      StuckIsUniform(g, i, Left);
      StuckIsUniform(g, i, Right);
    } else {
      MovingWeights(g, i, Up);
      MovingWeights(g, i, Down);
      MovingWeights(g, i, Left);
      MovingWeights(g, i, Right);
    }
  }

  /** The order `r` lists every candidate exactly once. */
  predicate IsPermutation(r: seq<Direction>) {
    && |r| == |PossibleDirections|
    && (forall d :: d in PossibleDirections ==> d in r)
    && (forall j, k :: 0 <= j < k < |r| ==> r[j] != r[k])
  }

  /** Straight on, the two sides and the reverse are the four candidates,
      each once. */
  lemma TurnOrderPermutes(c: Direction)
    requires c != None
    ensures IsPermutation(TurnOrder(c))
  {
    match c
    case Up => assert TurnOrder(c) == [Up, Left, Right, Down];
    case Down => assert TurnOrder(c) == [Down, Left, Right, Up];
    case Left => assert TurnOrder(c) == [Left, Up, Down, Right];
    case Right => assert TurnOrder(c) == [Right, Up, Down, Left];
  }

  /** The scores along the ranked order of a ghost that can continue. */
  lemma MovingEntries(g: GameState, i: nat, r: seq<Direction>)
    requires g.board.Valid() && i < |g.ghosts| && CanContinue(g, i)
    requires r == TurnOrder(g.ghosts[i].direction)
    ensures |r| == 4 && forall j :: 0 <= j < 4 ==> r[j] != None
    ensures DirectionScore(g, r[0], i) == 8 && DirectionScore(g, r[1], i) == 5
      && DirectionScore(g, r[2], i) == 5 && DirectionScore(g, r[3], i) == 2 && Ordinal(r[1]) < Ordinal(r[2])
  {
    MovingWeights(g, i, r[0]);
    MovingWeights(g, i, r[1]);
    MovingWeights(g, i, r[2]);
    MovingWeights(g, i, r[3]);
  }

  /** The scores along the ranked order of a ghost that cannot continue. */
  lemma StuckEntries(g: GameState, i: nat, r: seq<Direction>)
    requires g.board.Valid() && i < |g.ghosts| && !CanContinue(g, i)
    requires r == PossibleDirections
    ensures |r| == 4
    ensures forall j :: 0 <= j < 4 ==> r[j] != None && DirectionScore(g, r[j], i) == 1 && Ordinal(r[j]) == j
  {
    forall j | 0 <= j < 4
      ensures r[j] != None && DirectionScore(g, r[j], i) == 1 && Ordinal(r[j]) == j
    {
      StuckIsUniform(g, i, r[j]);
    }
  }

  /** The two score patterns a ranked order can show are non-increasing, and
      ties in them come with increasing candidate positions. */
  lemma PatternsSorted(ws: seq<nat>, os: seq<nat>)
    requires |ws| == 4 && |os| == 4
    requires || (ws[0] == 8 && ws[1] == 5 && ws[2] == 5 && ws[3] == 2 && os[1] < os[2])
             || (ws[0] == 1 && ws[1] == 1 && ws[2] == 1 && ws[3] == 1 && os[0] == 0 && os[1] == 1 && os[2] == 2 && os[3] == 3)
    ensures forall j, k :: 0 <= j < k < 4 ==> ws[j] >= ws[k] && (ws[j] == ws[k] ==> os[j] < os[k])
  {
  }

  /** The ranked order is a stable descending sort of the candidates by score:
      it holds each candidate exactly once, scores never increase along it, and
      candidates of equal score keep their relative order. */
  lemma RankedIsStableSort(g: GameState, i: nat)
    requires g.board.Valid() && i < |g.ghosts|
    ensures var r := Ranked(g, i);
      && IsPermutation(r)
      && (forall j, k :: 0 <= j < k < |r| ==> DirectionScore(g, r[j], i) >= DirectionScore(g, r[k], i))
      && (forall j, k :: 0 <= j < k < |r| && DirectionScore(g, r[j], i) == DirectionScore(g, r[k], i) ==>
            Ordinal(r[j]) < Ordinal(r[k]))
  {
    RankedOrder(g, i);
    SpelledOutIsStableSort(g, i, Ranked(g, i));
  }

  /** The spelled-out orders are stable descending sorts by score. */
  lemma SpelledOutIsStableSort(g: GameState, i: nat, r: seq<Direction>)
    requires g.board.Valid() && i < |g.ghosts|
    requires r == (if CanContinue(g, i) then TurnOrder(g.ghosts[i].direction) else PossibleDirections)
    ensures IsPermutation(r)
    ensures forall j, k :: 0 <= j < k < |r| ==> DirectionScore(g, r[j], i) >= DirectionScore(g, r[k], i)
    ensures forall j, k :: 0 <= j < k < |r| && DirectionScore(g, r[j], i) == DirectionScore(g, r[k], i) ==>
      Ordinal(r[j]) < Ordinal(r[k])
  {
    if CanContinue(g, i) {
      TurnOrderPermutes(g.ghosts[i].direction);
      MovingEntries(g, i, r);
    } else {
      StuckEntries(g, i, r);
    }
    ScoresSorted(g, i, r);
  }

  /** Reads the score patterns of a spelled-out order back as the sort
      properties. */
  lemma ScoresSorted(g: GameState, i: nat, r: seq<Direction>)
    requires g.board.Valid() && i < |g.ghosts| && |r| == 4
    requires || (DirectionScore(g, r[0], i) == 8 && DirectionScore(g, r[1], i) == 5
                 && DirectionScore(g, r[2], i) == 5 && DirectionScore(g, r[3], i) == 2 && Ordinal(r[1]) < Ordinal(r[2]))
             || (forall j :: 0 <= j < 4 ==> DirectionScore(g, r[j], i) == 1 && Ordinal(r[j]) == j)
    ensures forall j, k :: 0 <= j < k < |r| ==> DirectionScore(g, r[j], i) >= DirectionScore(g, r[k], i)
    ensures forall j, k :: 0 <= j < k < |r| && DirectionScore(g, r[j], i) == DirectionScore(g, r[k], i) ==>
      Ordinal(r[j]) < Ordinal(r[k])
  {
    var ws := seq(4, j requires 0 <= j < 4 => DirectionScore(g, r[j], i));
    var os := seq(4, j requires 0 <= j < 4 => Ordinal(r[j]));
    PatternsSorted(ws, os);
  }

  /** One move per ghost. `picks[i]` is where the cumulative scan over ghost
      `i`'s ranked candidates stopped for the random draw; an index past the
      candidates stands for a scan that never stopped, which leaves the array's
      default move, `Up`. */
  function GetNextMove(g: GameState, picks: seq<nat>): (moves: seq<Direction>)
    requires g.board.Valid() && |picks| == |g.ghosts|
    ensures |moves| == |g.ghosts|
    ensures forall i :: 0 <= i < |moves| ==> moves[i] in PossibleDirections
    ensures forall i :: 0 <= i < |moves| && picks[i] < |PossibleDirections| ==>
      |Ranked(g, i)| == |PossibleDirections| && moves[i] == Ranked(g, i)[picks[i]]
    ensures forall i :: 0 <= i < |moves| && picks[i] == 0 && CanContinue(g, i) ==> moves[i] == g.ghosts[i].direction
  {
    AllRanked(g);
    seq(|picks|, i requires 0 <= i < |picks| =>
      if picks[i] < |PossibleDirections| then Ranked(g, i)[picks[i]] else Up)
  }

  /** Every ghost's ranked order is a list of the four candidates, led by the
      straight-on heading when there is one to continue. */
  lemma AllRanked(g: GameState)
    requires g.board.Valid()
    ensures forall i :: 0 <= i < |g.ghosts| ==>
      && |Ranked(g, i)| == |PossibleDirections|
      && (forall d :: d in Ranked(g, i) ==> d in PossibleDirections)
      && (CanContinue(g, i) ==> Ranked(g, i)[0] == g.ghosts[i].direction)
  {
    forall i | 0 <= i < |g.ghosts|
      ensures |Ranked(g, i)| == |PossibleDirections|
      ensures forall d :: d in Ranked(g, i) ==> d in PossibleDirections
      ensures CanContinue(g, i) ==> Ranked(g, i)[0] == g.ghosts[i].direction
    {
      RankedOrder(g, i);
    }
  }
}
