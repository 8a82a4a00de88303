/**
 * Needleman-Wunsch alignment of two token sequences
 * (src/utils/similarity.ts, lines 107-195): a scoring matrix filled row by
 * row, then a walk back from the bottom-right corner along the recorded
 * directions.
 */
module Alignment {
  import opened Types
  import opened Similarity

  datatype Direction = Diagonal | Up | Left | NoDirection

  datatype AlignmentCell = AlignmentCell(score: int, direction: Direction)

  /** `[string | null, string | null]`: a token of each side, or a gap. */
  datatype AlignedTokenPair = AlignedTokenPair(a: Option<string>, b: Option<string>)

  function Reverse<T>(s: seq<T>): (r: seq<T>)
    ensures |r| == |s|
    ensures forall k :: 0 <= k < |s| ==> r[k] == s[|s| - 1 - k]
  {
    if s == [] then [] else [s[|s| - 1]] + Reverse(s[..|s| - 1])
  }

  // ---------------------------------------------------------------------
  // Alignments and their scores
  // ---------------------------------------------------------------------

  function OptionList(o: Option<string>): seq<string> {
    if o.Some? then [o.value] else []
  }

  /** The tokens of the first side, gaps skipped. */
  function Lefts(al: seq<AlignedTokenPair>): seq<string> {
    if al == [] then [] else Lefts(al[..|al| - 1]) + OptionList(al[|al| - 1].a)
  }

  /** The tokens of the second side, gaps skipped. */
  function Rights(al: seq<AlignedTokenPair>): seq<string> {
    if al == [] then [] else Rights(al[..|al| - 1]) + OptionList(al[|al| - 1].b)
  }

  predicate NoEmptyPair(al: seq<AlignedTokenPair>) {
    forall k :: 0 <= k < |al| ==> al[k].a.Some? || al[k].b.Some?
  }

  /** `al` interleaves `tokensA` and `tokensB` in order, never pairing two gaps. */
  predicate IsAlignment(al: seq<AlignedTokenPair>, tokensA: seq<string>, tokensB: seq<string>) {
    NoEmptyPair(al) && Lefts(al) == tokensA && Rights(al) == tokensB
  }

  function PairScore(p: AlignedTokenPair, score: (string, string) -> int): int {
    if p.a.Some? && p.b.Some? then score(p.a.value, p.b.value)
    else GapPenalty
  }

  /** The Needleman-Wunsch score of an alignment: pair scores plus gap penalties. */
  function AlignmentTotal(al: seq<AlignedTokenPair>, score: (string, string) -> int): int {
    if al == [] then 0
    else AlignmentTotal(al[..|al| - 1], score)
         + PairScore(al[|al| - 1], score)
  }

  lemma Snoc(al: seq<AlignedTokenPair>, p: AlignedTokenPair, score: (string, string) -> int)
    ensures Lefts(al + [p]) == Lefts(al) + OptionList(p.a)
    ensures Rights(al + [p]) == Rights(al) + OptionList(p.b)
    ensures AlignmentTotal(al + [p], score)
            == AlignmentTotal(al, score) + PairScore(p, score)
  {
    assert (al + [p])[..|al|] == al;
  }

  lemma {:induction false} ProjectionLengths(al: seq<AlignedTokenPair>)
    ensures |Lefts(al)| <= |al| && |Rights(al)| <= |al|
    ensures NoEmptyPair(al) ==> |al| <= |Lefts(al)| + |Rights(al)|
  {
    if al != [] {
      ProjectionLengths(al[..|al| - 1]);
    }
  }

  /** An alignment is at least as long as either side and at most as long as both together. */
  lemma AlignmentLength(al: seq<AlignedTokenPair>, tokensA: seq<string>, tokensB: seq<string>)
    requires IsAlignment(al, tokensA, tokensB)
    ensures |tokensA| <= |al| && |tokensB| <= |al|
    ensures |al| <= |tokensA| + |tokensB|
  {
    ProjectionLengths(al);
  }

  // ---------------------------------------------------------------------
  // Backtracking
  // ---------------------------------------------------------------------

  /**
   * What `backtrackAlignment` needs of its matrix: one row per prefix of
   * `tokensA`, one column per prefix of `tokensB`, and no direction that
   * would step outside the matrix.
   */
  predicate WellFormedMatrix(matrix: seq<seq<AlignmentCell>>, lengthA: nat, lengthB: nat) {
    && |matrix| == lengthA + 1
    && (forall i :: 0 <= i <= lengthA ==> |matrix[i]| == lengthB + 1)
    && (forall i, j :: 0 <= i <= lengthA && 0 <= j <= lengthB ==>
          && (matrix[i][j].direction == Diagonal ==> i > 0 && j > 0)
          && (matrix[i][j].direction == Up ==> i > 0)
          && (matrix[i][j].direction == Left ==> j > 0))
  }

  function Append(o: Option<seq<AlignedTokenPair>>, tail: seq<AlignedTokenPair>): Option<seq<AlignedTokenPair>> {
    if o.None? then None else Some(o.value + tail)
  }

  /**
   * The alignment read back from cell (i, j) to the origin, in forward
   * order; `None` when the walk meets a cell without a direction.
   */
  function BacktrackFrom(matrix: seq<seq<AlignmentCell>>, tokensA: seq<string>, tokensB: seq<string>,
                         i: nat, j: nat): Option<seq<AlignedTokenPair>>
    requires WellFormedMatrix(matrix, |tokensA|, |tokensB|)
    requires i <= |tokensA| && j <= |tokensB|
    decreases i + j
  {
    if i == 0 && j == 0 then Some([])
    else match matrix[i][j].direction
      case Diagonal =>
        Append(BacktrackFrom(matrix, tokensA, tokensB, i - 1, j - 1),
               [AlignedTokenPair(Some(tokensA[i - 1]), Some(tokensB[j - 1]))])
      case Up =>
        Append(BacktrackFrom(matrix, tokensA, tokensB, i - 1, j), [AlignedTokenPair(Some(tokensA[i - 1]), None)])
      case Left =>
        Append(BacktrackFrom(matrix, tokensA, tokensB, i, j - 1), [AlignedTokenPair(None, Some(tokensB[j - 1]))])
      case NoDirection => None
  }

  /** The walk from (i, j), under a name whose every use unfolds it at most one step. */
  function WalkFrom(matrix: seq<seq<AlignmentCell>>, tokensA: seq<string>, tokensB: seq<string>,
                    i: nat, j: nat): Option<seq<AlignedTokenPair>>
    requires WellFormedMatrix(matrix, |tokensA|, |tokensB|)
    requires i <= |tokensA| && j <= |tokensB|
  {
    BacktrackFrom(matrix, tokensA, tokensB, i, j)
  }

  lemma PrefixExtend(s: seq<string>, i: nat, pi: nat, o: Option<string>)
    requires i <= |s|
    requires (o.Some? && pi + 1 == i && o.value == s[i - 1]) || (o.None? && pi == i)
    ensures s[..i] == s[..pi] + OptionList(o)
  {
    if o.Some? {
      assert s[..i] == s[..i - 1] + [s[i - 1]];
    }
  }

  lemma AppendAppend(o: Option<seq<AlignedTokenPair>>, p: AlignedTokenPair, rest: seq<AlignedTokenPair>)
    ensures Append(Append(o, [p]), rest) == Append(o, [p] + rest)
  {
    if o.Some? {
      assert o.value + [p] + rest == o.value + ([p] + rest);
    }
  }

  /** Whatever the scores, a completed walk from (i, j) aligns the first i and j tokens. */
  lemma {:induction false} BacktrackIsAlignment(matrix: seq<seq<AlignmentCell>>, tokensA: seq<string>,
                                                tokensB: seq<string>, i: nat, j: nat)
    requires WellFormedMatrix(matrix, |tokensA|, |tokensB|)
    requires i <= |tokensA| && j <= |tokensB|
    ensures BacktrackFrom(matrix, tokensA, tokensB, i, j).Some? ==>
              IsAlignment(BacktrackFrom(matrix, tokensA, tokensB, i, j).value, tokensA[..i], tokensB[..j])
    decreases i + j
  {
    if i == 0 && j == 0 {
    } else {
      var p: AlignedTokenPair;
      var pi: nat, pj: nat;
      match matrix[i][j].direction {
        case Diagonal =>
          p, pi, pj := AlignedTokenPair(Some(tokensA[i - 1]), Some(tokensB[j - 1])), i - 1, j - 1;
        case Up =>
          p, pi, pj := AlignedTokenPair(Some(tokensA[i - 1]), None), i - 1, j;
        case Left =>
          p, pi, pj := AlignedTokenPair(None, Some(tokensB[j - 1])), i, j - 1;
        case NoDirection =>
          return;
      }
      var previous := BacktrackFrom(matrix, tokensA, tokensB, pi, pj);
      assert BacktrackFrom(matrix, tokensA, tokensB, i, j) == Append(previous, [p]);
      BacktrackIsAlignment(matrix, tokensA, tokensB, pi, pj);
      if previous.Some? {
        Snoc(previous.value, p, (a, b) => 0);
        PrefixExtend(tokensA, i, pi, p.a);
        PrefixExtend(tokensB, j, pj, p.b);
      }
    }
  }

  /**
   * `backtrackAlignment`: walks from (|tokensA|, |tokensB|) to (0, 0),
   * pushing one pair per step, then reverses what it pushed; a cell without
   * a direction on the way throws.
   */
  method BacktrackAlignment(matrix: seq<seq<AlignmentCell>>, tokensA: seq<string>, tokensB: seq<string>)
    returns (r: Result<seq<AlignedTokenPair>>)
    requires WellFormedMatrix(matrix, |tokensA|, |tokensB|)
    ensures r.Success? <==> BacktrackFrom(matrix, tokensA, tokensB, |tokensA|, |tokensB|).Some?
    ensures r.Success? ==> r.value == BacktrackFrom(matrix, tokensA, tokensB, |tokensA|, |tokensB|).value
    ensures r.Success? ==> IsAlignment(r.value, tokensA, tokensB)
    ensures r.Failure? ==> r.error == "Invalid alignment direction"
  {
    BacktrackIsAlignment(matrix, tokensA, tokensB, |tokensA|, |tokensB|);
    assert tokensA[..|tokensA|] == tokensA && tokensB[..|tokensB|] == tokensB;
    var alignment: seq<AlignedTokenPair> := [];
    var whole := WalkFrom(matrix, tokensA, tokensB, |tokensA|, |tokensB|);
    assert whole.Some? ==> whole.value + [] == whole.value;
    var i: nat := |tokensA|;
    var j: nat := |tokensB|;
    while i > 0 || j > 0
      invariant i <= |tokensA| && j <= |tokensB|
      invariant Append(WalkFrom(matrix, tokensA, tokensB, i, j), Reverse(alignment)) == whole
      decreases i + j
    {
      var currentCell := matrix[i][j];
      ghost var previousI, previousJ := i, j;
      var p: AlignedTokenPair;
      match currentCell.direction {
        case Diagonal =>
          i, j := i - 1, j - 1;
          p := AlignedTokenPair(Some(tokensA[i]), Some(tokensB[j]));
        case Up =>
          i := i - 1;
          p := AlignedTokenPair(Some(tokensA[i]), None);
        case Left =>
          j := j - 1;
          p := AlignedTokenPair(None, Some(tokensB[j]));
        case NoDirection =>
          return Failure("Invalid alignment direction");
      }
      assert WalkFrom(matrix, tokensA, tokensB, previousI, previousJ)
             == Append(WalkFrom(matrix, tokensA, tokensB, i, j), [p]);
      assert Reverse(alignment + [p]) == [p] + Reverse(alignment);
      AppendAppend(WalkFrom(matrix, tokensA, tokensB, i, j), p, Reverse(alignment));
      alignment := alignment + [p];
    }
    r := Success(Reverse(alignment));
  }

  // ---------------------------------------------------------------------
  // The scoring matrix
  // ---------------------------------------------------------------------

  /** The pair score `alignTokenSequences` fills its matrix with. */
  function Scorer(typoSymbols: seq<string>, similarityThreshold: real): (string, string) -> int {
    (a, b) => CalculateAlignmentScore(a, b, typoSymbols, similarityThreshold)
  }

  function Max3(a: int, b: int, c: int): (m: int)
    ensures m >= a && m >= b && m >= c
    ensures m == a || m == b || m == c
  {
    if a >= b && a >= c then a else if b >= c then b else c
  }

  /** The best of the three moves into a cell; ties go to diagonal, then up. */
  function BestMove(diagonalScore: int, upScore: int, leftScore: int): AlignmentCell {
    var bestScore := Max3(diagonalScore, upScore, leftScore);
    AlignmentCell(bestScore, if bestScore == diagonalScore then Diagonal else if bestScore == upScore then Up else Left)
  }

  /**
   * Cell (i, j) of the filled matrix: the best score of aligning the first
   * i tokens of A with the first j tokens of B, and the move it came from
   * (ties go to diagonal, then up).
   */
  function OptimalCell(tokensA: seq<string>, tokensB: seq<string>, score: (string, string) -> int,
                       i: nat, j: nat): AlignmentCell
    requires i <= |tokensA| && j <= |tokensB|
    decreases i + j
  {
    if i == 0 && j == 0 then AlignmentCell(0, NoDirection)
    else if j == 0 then AlignmentCell(i * GapPenalty, Up)
    else if i == 0 then AlignmentCell(j * GapPenalty, Left)
    else
      var diagonalScore := OptimalCell(tokensA, tokensB, score, i - 1, j - 1).score + score(tokensA[i - 1], tokensB[j - 1]);
      var upScore := OptimalCell(tokensA, tokensB, score, i - 1, j).score + GapPenalty;
      var leftScore := OptimalCell(tokensA, tokensB, score, i, j - 1).score + GapPenalty;
      BestMove(diagonalScore, upScore, leftScore)
  }

  function OptimalMatrix(tokensA: seq<string>, tokensB: seq<string>, score: (string, string) -> int)
    : (m: seq<seq<AlignmentCell>>)
    ensures |m| == |tokensA| + 1
    ensures forall i :: 0 <= i <= |tokensA| ==> |m[i]| == |tokensB| + 1
  {
    seq(|tokensA| + 1, i requires 0 <= i <= |tokensA| =>
      seq(|tokensB| + 1, j requires 0 <= j <= |tokensB| => OptimalCell(tokensA, tokensB, score, i, j)))
  }

  /**
   * Cell (i, j) obeys the Needleman-Wunsch recurrence with respect to its
   * neighbours: its direction names a move whose score it equals, and it
   * scores at least as much as every move available from it.
   */
  predicate CellConsistent(matrix: seq<seq<AlignmentCell>>, tokensA: seq<string>, tokensB: seq<string>,
                           score: (string, string) -> int, i: nat, j: nat)
    requires WellFormedMatrix(matrix, |tokensA|, |tokensB|)
    requires i <= |tokensA| && j <= |tokensB|
  {
    var cell := matrix[i][j];
    && (cell.direction == NoDirection <==> i == 0 && j == 0)
    && (i == 0 && j == 0 ==> cell.score == 0)
    && (cell.direction == Diagonal ==>
          cell.score == matrix[i - 1][j - 1].score + score(tokensA[i - 1], tokensB[j - 1]))
    && (cell.direction == Up ==> cell.score == matrix[i - 1][j].score + GapPenalty)
    && (cell.direction == Left ==> cell.score == matrix[i][j - 1].score + GapPenalty)
    && (i > 0 && j > 0 ==> cell.score >= matrix[i - 1][j - 1].score + score(tokensA[i - 1], tokensB[j - 1]))
    && (i > 0 ==> cell.score >= matrix[i - 1][j].score + GapPenalty)
    && (j > 0 ==> cell.score >= matrix[i][j - 1].score + GapPenalty)
  }

  predicate Consistent(matrix: seq<seq<AlignmentCell>>, tokensA: seq<string>, tokensB: seq<string>,
                       score: (string, string) -> int)
  {
    && WellFormedMatrix(matrix, |tokensA|, |tokensB|)
    && forall i: nat, j: nat :: i <= |tokensA| && j <= |tokensB| ==> CellConsistent(matrix, tokensA, tokensB, score, i, j)
  }

  /** The fill rules of `alignTokenSequences`, cell by cell, on a matrix of the right shape. */
  predicate FollowsRecurrence(matrix: seq<seq<AlignmentCell>>, tokensA: seq<string>, tokensB: seq<string>,
                              score: (string, string) -> int)
  {
    && |matrix| == |tokensA| + 1
    && (forall i :: 0 <= i <= |tokensA| ==> |matrix[i]| == |tokensB| + 1)
    && matrix[0][0] == AlignmentCell(0, NoDirection)
    && (forall i :: 1 <= i <= |tokensA| ==> matrix[i][0] == AlignmentCell(i * GapPenalty, Up))
    && (forall j :: 1 <= j <= |tokensB| ==> matrix[0][j] == AlignmentCell(j * GapPenalty, Left))
    && (forall i: nat, j: nat :: 1 <= i <= |tokensA| && 1 <= j <= |tokensB| ==>
          InnerCellFollows(matrix, tokensA, tokensB, score, i, j))
  }

  /** An inner cell holds the best move from its three neighbours. */
  predicate InnerCellFollows(matrix: seq<seq<AlignmentCell>>, tokensA: seq<string>, tokensB: seq<string>,
                             score: (string, string) -> int, i: nat, j: nat)
  {
    && 1 <= i < |matrix| && 1 <= j <= |tokensB| && i <= |tokensA|
    && j < |matrix[i]| && j < |matrix[i - 1]|
    && matrix[i][j] == BestMove(matrix[i - 1][j - 1].score + score(tokensA[i - 1], tokensB[j - 1]),
                                matrix[i - 1][j].score + GapPenalty,
                                matrix[i][j - 1].score + GapPenalty)
  }

  /** A matrix filled by the rules obeys the Needleman-Wunsch recurrence. */
  lemma RecurrenceIsConsistent(matrix: seq<seq<AlignmentCell>>, tokensA: seq<string>, tokensB: seq<string>,
                               score: (string, string) -> int)
    requires FollowsRecurrence(matrix, tokensA, tokensB, score)
    ensures Consistent(matrix, tokensA, tokensB, score)
  {
    assert WellFormedMatrix(matrix, |tokensA|, |tokensB|) by {
      forall i, j | 0 <= i <= |tokensA| && 0 <= j <= |tokensB|
        ensures (matrix[i][j].direction == Diagonal ==> i > 0 && j > 0)
             && (matrix[i][j].direction == Up ==> i > 0)
             && (matrix[i][j].direction == Left ==> j > 0)
      {
        if i > 0 && j > 0 {
          assert InnerCellFollows(matrix, tokensA, tokensB, score, i, j);
        } else if i > 0 {
        } else if j > 0 {
        }
      }
    }
    forall i: nat, j: nat | i <= |tokensA| && j <= |tokensB|
      ensures CellConsistent(matrix, tokensA, tokensB, score, i, j)
    {
      if i > 0 && j > 0 {
        assert InnerCellFollows(matrix, tokensA, tokensB, score, i, j);
      } else if i > 0 {
        assert matrix[i][0] == AlignmentCell(i * GapPenalty, Up);
        if i > 1 {
          assert matrix[i - 1][0] == AlignmentCell((i - 1) * GapPenalty, Up);
        }
      } else if j > 0 {
        assert matrix[0][j] == AlignmentCell(j * GapPenalty, Left);
        if j > 1 {
          assert matrix[0][j - 1] == AlignmentCell((j - 1) * GapPenalty, Left);
        }
      }
    }
  }

  lemma OptimalMatrixFollowsRecurrence(tokensA: seq<string>, tokensB: seq<string>, score: (string, string) -> int)
    ensures FollowsRecurrence(OptimalMatrix(tokensA, tokensB, score), tokensA, tokensB, score)
  {
    var m: seq<seq<AlignmentCell>> := OptimalMatrix(tokensA, tokensB, score);
    forall i: nat, j: nat | 1 <= i <= |tokensA| && 1 <= j <= |tokensB|
      ensures InnerCellFollows(m, tokensA, tokensB, score, i, j)
    {
      assert m[i][j] == OptimalCell(tokensA, tokensB, score, i, j);
      assert m[i - 1][j - 1] == OptimalCell(tokensA, tokensB, score, i - 1, j - 1);
      assert m[i - 1][j] == OptimalCell(tokensA, tokensB, score, i - 1, j);
      assert m[i][j - 1] == OptimalCell(tokensA, tokensB, score, i, j - 1);
    }
  }

  lemma {:induction false} RecurrenceCell(matrix: seq<seq<AlignmentCell>>, tokensA: seq<string>, tokensB: seq<string>,
                                          score: (string, string) -> int, i: nat, j: nat)
    requires FollowsRecurrence(matrix, tokensA, tokensB, score)
    requires i <= |tokensA| && j <= |tokensB|
    ensures matrix[i][j] == OptimalCell(tokensA, tokensB, score, i, j)
    decreases i + j
  {
    if i > 0 && j > 0 {
      RecurrenceCell(matrix, tokensA, tokensB, score, i - 1, j - 1);
      RecurrenceCell(matrix, tokensA, tokensB, score, i - 1, j);
      RecurrenceCell(matrix, tokensA, tokensB, score, i, j - 1);
      assert InnerCellFollows(matrix, tokensA, tokensB, score, i, j);
    }
  }

  /** The fill rules leave no choice: a matrix that follows them is the optimal matrix. */
  lemma RecurrenceDeterminesMatrix(matrix: seq<seq<AlignmentCell>>, tokensA: seq<string>, tokensB: seq<string>,
                                   score: (string, string) -> int)
    requires FollowsRecurrence(matrix, tokensA, tokensB, score)
    ensures matrix == OptimalMatrix(tokensA, tokensB, score)
  {
    var m: seq<seq<AlignmentCell>> := OptimalMatrix(tokensA, tokensB, score);
    forall i | 0 <= i <= |tokensA| ensures matrix[i] == m[i] {
      forall j | 0 <= j <= |tokensB| ensures matrix[i][j] == m[i][j] {
        RecurrenceCell(matrix, tokensA, tokensB, score, i, j);
      }
    }
  }

  /** A matrix with the dimensions `alignTokenSequences` allocates, filled by its rules. */
  lemma ExpectedMatrix(tokensA: seq<string>, tokensB: seq<string>, score: (string, string) -> int)
    returns (expected: seq<seq<AlignmentCell>>)
    ensures FollowsRecurrence(expected, tokensA, tokensB, score)
  {
    expected := OptimalMatrix(tokensA, tokensB, score);
    OptimalMatrixFollowsRecurrence(tokensA, tokensB, score);
  }

  /** On a consistent matrix the walk never fails, and its alignment scores exactly the cell's score. */
  lemma {:induction false} BacktrackAchievesScore(matrix: seq<seq<AlignmentCell>>, tokensA: seq<string>,
                                                  tokensB: seq<string>, score: (string, string) -> int,
                                                  i: nat, j: nat)
    requires Consistent(matrix, tokensA, tokensB, score)
    requires i <= |tokensA| && j <= |tokensB|
    ensures BacktrackFrom(matrix, tokensA, tokensB, i, j).Some?
    ensures AlignmentTotal(BacktrackFrom(matrix, tokensA, tokensB, i, j).value, score) == matrix[i][j].score
    decreases i + j
  {
    if i > 0 || j > 0 {
      assert CellConsistent(matrix, tokensA, tokensB, score, i, j);
      var p: AlignedTokenPair;
      var pi: nat, pj: nat;
      match matrix[i][j].direction {
        case Diagonal =>
          p, pi, pj := AlignedTokenPair(Some(tokensA[i - 1]), Some(tokensB[j - 1])), i - 1, j - 1;
        case Up =>
          p, pi, pj := AlignedTokenPair(Some(tokensA[i - 1]), None), i - 1, j;
        case Left =>
          p, pi, pj := AlignedTokenPair(None, Some(tokensB[j - 1])), i, j - 1;
      }
      assert BacktrackFrom(matrix, tokensA, tokensB, i, j) == Append(BacktrackFrom(matrix, tokensA, tokensB, pi, pj), [p]);
      BacktrackAchievesScore(matrix, tokensA, tokensB, score, pi, pj);
      var previous := BacktrackFrom(matrix, tokensA, tokensB, pi, pj).value;
      Snoc(previous, p, score);
      assert AlignmentTotal(previous, score) == matrix[pi][pj].score;
    } else {
      assert CellConsistent(matrix, tokensA, tokensB, score, 0, 0);
    }
  }

  /** The last pair's left token, if any, is the last token of the prefix its lefts spell. */
  lemma DropLastLeft(al: seq<AlignedTokenPair>, tokensA: seq<string>, i: nat)
    requires al != [] && i <= |tokensA| && Lefts(al) == tokensA[..i]
    ensures var p := al[|al| - 1];
            && (p.a.Some? ==> i > 0 && p.a.value == tokensA[i - 1] && Lefts(al[..|al| - 1]) == tokensA[..i - 1])
            && (p.a.None? ==> Lefts(al[..|al| - 1]) == tokensA[..i])
  {
    var p := al[|al| - 1];
    if p.a.Some? {
      assert tokensA[..i] == Lefts(al[..|al| - 1]) + [p.a.value];
      assert tokensA[..i][..i - 1] == tokensA[..i - 1];
      assert tokensA[..i][i - 1] == tokensA[i - 1];
    }
  }

  /** The last pair's right token, if any, is the last token of the prefix its rights spell. */
  lemma DropLastRight(al: seq<AlignedTokenPair>, tokensB: seq<string>, j: nat)
    requires al != [] && j <= |tokensB| && Rights(al) == tokensB[..j]
    ensures var p := al[|al| - 1];
            && (p.b.Some? ==> j > 0 && p.b.value == tokensB[j - 1] && Rights(al[..|al| - 1]) == tokensB[..j - 1])
            && (p.b.None? ==> Rights(al[..|al| - 1]) == tokensB[..j])
  {
    var p := al[|al| - 1];
    if p.b.Some? {
      assert tokensB[..j] == Rights(al[..|al| - 1]) + [p.b.value];
      assert tokensB[..j][..j - 1] == tokensB[..j - 1];
      assert tokensB[..j][j - 1] == tokensB[j - 1];
    }
  }

  /** A consistent cell is at least its predecessor's score plus the score of the pair that leads to it. */
  lemma CellBoundsPair(matrix: seq<seq<AlignmentCell>>, tokensA: seq<string>, tokensB: seq<string>,
                       score: (string, string) -> int, i: nat, j: nat, p: AlignedTokenPair)
    requires Consistent(matrix, tokensA, tokensB, score)
    requires i <= |tokensA| && j <= |tokensB|
    requires p.a.Some? || p.b.Some?
    requires p.a.Some? ==> i > 0 && p.a.value == tokensA[i - 1]
    requires p.b.Some? ==> j > 0 && p.b.value == tokensB[j - 1]
    ensures matrix[if p.a.Some? then i - 1 else i][if p.b.Some? then j - 1 else j].score + PairScore(p, score)
            <= matrix[i][j].score
  {
    assert CellConsistent(matrix, tokensA, tokensB, score, i, j);
  }

  /** On a consistent matrix no alignment of the first i and j tokens scores more than cell (i, j). */
  lemma {:induction false} NoAlignmentScoresHigher(matrix: seq<seq<AlignmentCell>>, tokensA: seq<string>,
                                                   tokensB: seq<string>, score: (string, string) -> int,
                                                   i: nat, j: nat, al: seq<AlignedTokenPair>)
    requires Consistent(matrix, tokensA, tokensB, score)
    requires i <= |tokensA| && j <= |tokensB|
    requires IsAlignment(al, tokensA[..i], tokensB[..j])
    ensures AlignmentTotal(al, score) <= matrix[i][j].score
    decreases |al|
  {
    if al != [] {
      var previous := al[..|al| - 1];
      var p := al[|al| - 1];
      DropLastLeft(al, tokensA, i);
      DropLastRight(al, tokensB, j);
      assert NoEmptyPair(previous) && (p.a.Some? || p.b.Some?);
      var pi := if p.a.Some? then i - 1 else i;
      var pj := if p.b.Some? then j - 1 else j;
      NoAlignmentScoresHigher(matrix, tokensA, tokensB, score, pi, pj, previous);
      CellBoundsPair(matrix, tokensA, tokensB, score, i, j, p);
      assert AlignmentTotal(al, score) == AlignmentTotal(previous, score) + PairScore(p, score);
    } else {
      assert CellConsistent(matrix, tokensA, tokensB, score, i, j);
      assert i == |Lefts(al)| && j == |Rights(al)|;
    }
  }

  /** The alignment `alignTokenSequences` returns, read back from the filled matrix. */
  function Aligned(tokensA: seq<string>, tokensB: seq<string>, score: (string, string) -> int)
    : (al: seq<AlignedTokenPair>)
    ensures IsAlignment(al, tokensA, tokensB)
    ensures AlignmentTotal(al, score) == OptimalCell(tokensA, tokensB, score, |tokensA|, |tokensB|).score
  {
    var m: seq<seq<AlignmentCell>> := OptimalMatrix(tokensA, tokensB, score);
    OptimalMatrixFollowsRecurrence(tokensA, tokensB, score);
    RecurrenceIsConsistent(m, tokensA, tokensB, score);
    BacktrackAchievesScore(m, tokensA, tokensB, score, |tokensA|, |tokensB|);
    BacktrackIsAlignment(m, tokensA, tokensB, |tokensA|, |tokensB|);
    assert tokensA[..|tokensA|] == tokensA && tokensB[..|tokensB|] == tokensB;
    BacktrackFrom(m, tokensA, tokensB, |tokensA|, |tokensB|).value
  }

  /** The returned alignment is optimal: no alignment of the same tokens scores higher. */
  lemma AlignedIsOptimal(tokensA: seq<string>, tokensB: seq<string>, score: (string, string) -> int,
                         other: seq<AlignedTokenPair>)
    requires IsAlignment(other, tokensA, tokensB)
    ensures AlignmentTotal(other, score) <= AlignmentTotal(Aligned(tokensA, tokensB, score), score)
  {
    var m: seq<seq<AlignmentCell>> := OptimalMatrix(tokensA, tokensB, score);
    OptimalMatrixFollowsRecurrence(tokensA, tokensB, score);
    RecurrenceIsConsistent(m, tokensA, tokensB, score);
    assert tokensA[..|tokensA|] == tokensA && tokensB[..|tokensB|] == tokensB;
    NoAlignmentScoresHigher(m, tokensA, tokensB, score, |tokensA|, |tokensB|, other);
  }

  function MinNat(a: nat, b: nat): nat {
    if a <= b then a else b
  }

  /** When no pair scores above a perfect match, no cell scores more than a perfect match per token of the shorter prefix. */
  lemma {:induction false} CellScoreBound(matrix: seq<seq<AlignmentCell>>, tokensA: seq<string>,
                                          tokensB: seq<string>, score: (string, string) -> int, i: nat, j: nat)
    requires Consistent(matrix, tokensA, tokensB, score)
    requires forall a, b :: score(a, b) <= PerfectMatch
    requires i <= |tokensA| && j <= |tokensB|
    ensures matrix[i][j].score <= 2 * MinNat(i, j)
    decreases i + j
  {
    assert CellConsistent(matrix, tokensA, tokensB, score, i, j);
    match matrix[i][j].direction {
      case NoDirection =>
      case Diagonal => CellScoreBound(matrix, tokensA, tokensB, score, i - 1, j - 1);
      case Up => CellScoreBound(matrix, tokensA, tokensB, score, i - 1, j);
      case Left => CellScoreBound(matrix, tokensA, tokensB, score, i, j - 1);
    }
  }

  function Zip(tokens: seq<string>): (al: seq<AlignedTokenPair>)
    ensures |al| == |tokens|
    ensures forall k :: 0 <= k < |tokens| ==> al[k] == AlignedTokenPair(Some(tokens[k]), Some(tokens[k]))
  {
    seq(|tokens|, k requires 0 <= k < |tokens| => AlignedTokenPair(Some(tokens[k]), Some(tokens[k])))
  }

  lemma {:induction false} SelfBacktrackIsZip(matrix: seq<seq<AlignmentCell>>, tokens: seq<string>,
                                              score: (string, string) -> int, i: nat)
    requires Consistent(matrix, tokens, tokens, score)
    requires forall a, b :: score(a, b) <= PerfectMatch
    requires forall t :: score(t, t) == PerfectMatch
    requires i <= |tokens|
    ensures matrix[i][i].score == 2 * i
    ensures BacktrackFrom(matrix, tokens, tokens, i, i) == Some(Zip(tokens[..i]))
  {
    assert CellConsistent(matrix, tokens, tokens, score, i, i);
    if i > 0 {
      SelfBacktrackIsZip(matrix, tokens, score, i - 1);
      CellScoreBound(matrix, tokens, tokens, score, i - 1, i);
      CellScoreBound(matrix, tokens, tokens, score, i, i - 1);
      assert score(tokens[i - 1], tokens[i - 1]) == PerfectMatch;
      assert matrix[i][i].direction == Diagonal;
      assert Zip(tokens[..i]) == Zip(tokens[..i - 1]) + [AlignedTokenPair(Some(tokens[i - 1]), Some(tokens[i - 1]))];
    }
  }

  /** Aligning a sequence with itself pairs every token with itself. */
  lemma AlignedWithItself(tokens: seq<string>, typoSymbols: seq<string>, similarityThreshold: real)
    ensures Aligned(tokens, tokens, Scorer(typoSymbols, similarityThreshold)) == Zip(tokens)
  {
    var score := Scorer(typoSymbols, similarityThreshold);
    OptimalMatrixFollowsRecurrence(tokens, tokens, score);
    RecurrenceIsConsistent(OptimalMatrix(tokens, tokens, score), tokens, tokens, score);
    SelfBacktrackIsZip(OptimalMatrix(tokens, tokens, score), tokens, score, |tokens|);
    assert tokens[..|tokens|] == tokens;
  }

  function Rows(m: array2<AlignmentCell>): (rows: seq<seq<AlignmentCell>>)
    reads m
    ensures |rows| == m.Length0
    ensures forall i :: 0 <= i < m.Length0 ==> |rows[i]| == m.Length1
    ensures forall i, j :: 0 <= i < m.Length0 && 0 <= j < m.Length1 ==> rows[i][j] == m[i, j]
  {
    seq(m.Length0, i requires 0 <= i < m.Length0 reads m =>
      seq(m.Length1, j requires 0 <= j < m.Length1 reads m => m[i, j]))
  }

  /** The inner loop of the fill: row i, from column 1 on. */
  method FillRow(scoringMatrix: array2<AlignmentCell>, tokensA: seq<string>, tokensB: seq<string>,
                 score: (string, string) -> int, i: nat, ghost expected: seq<seq<AlignmentCell>>)
    requires FollowsRecurrence(expected, tokensA, tokensB, score)
    requires scoringMatrix.Length0 == |tokensA| + 1 && scoringMatrix.Length1 == |tokensB| + 1
    requires 1 <= i <= |tokensA|
    requires forall i', j' :: 0 <= i' < i && 0 <= j' <= |tokensB| ==> scoringMatrix[i', j'] == expected[i'][j']
    requires forall i' :: 0 <= i' <= |tokensA| ==> scoringMatrix[i', 0] == expected[i'][0]
    modifies scoringMatrix
    ensures forall i', j' :: 0 <= i' <= i && 0 <= j' <= |tokensB| ==> scoringMatrix[i', j'] == expected[i'][j']
    ensures forall i' :: 0 <= i' <= |tokensA| ==> scoringMatrix[i', 0] == expected[i'][0]
  {
    for j := 1 to |tokensB| + 1
      invariant forall i', j' :: 0 <= i' < i && 0 <= j' <= |tokensB| ==> scoringMatrix[i', j'] == expected[i'][j']
      invariant forall i' :: 0 <= i' <= |tokensA| ==> scoringMatrix[i', 0] == expected[i'][0]
      invariant forall j' :: 0 <= j' < j ==> scoringMatrix[i, j'] == expected[i][j']
    {
      var alignmentScore := score(tokensA[i - 1], tokensB[j - 1]);
      var diagonalScore := scoringMatrix[i - 1, j - 1].score + alignmentScore;
      var upScore := scoringMatrix[i - 1, j].score + GapPenalty;
      var leftScore := scoringMatrix[i, j - 1].score + GapPenalty;
      var bestScore := Max3(diagonalScore, upScore, leftScore);
      var bestDirection := if bestScore == diagonalScore then Diagonal else if bestScore == upScore then Up else Left;
      assert InnerCellFollows(expected, tokensA, tokensB, score, i, j);
      scoringMatrix[i, j] := AlignmentCell(bestScore, bestDirection);
    }
  }

  /**
   * The matrix-filling part of `alignTokenSequences`: the first column
   * holds "up" gaps, the first row "left" gaps, and every other cell the
   * best move from its three neighbours, row by row.
   */
  method FillScoringMatrix(tokensA: seq<string>, tokensB: seq<string>, typoSymbols: seq<string>,
                           similarityThreshold: real) returns (scoringMatrix: array2<AlignmentCell>)
    ensures fresh(scoringMatrix)
    ensures Rows(scoringMatrix) == OptimalMatrix(tokensA, tokensB, Scorer(typoSymbols, similarityThreshold))
  {
    var score := Scorer(typoSymbols, similarityThreshold);
    ghost var expected := ExpectedMatrix(tokensA, tokensB, score);
    var lengthA := |tokensA|;
    var lengthB := |tokensB|;
    scoringMatrix := new AlignmentCell[lengthA + 1, lengthB + 1]((_, _) => AlignmentCell(0, NoDirection));

    for i := 1 to lengthA + 1
      invariant forall i' :: 0 <= i' < i ==> scoringMatrix[i', 0] == expected[i'][0]
    {
      scoringMatrix[i, 0] := AlignmentCell(i * GapPenalty, Up);
    }
    for j := 1 to lengthB + 1
      invariant forall i' :: 0 <= i' <= lengthA ==> scoringMatrix[i', 0] == expected[i'][0]
      invariant forall j' :: 0 <= j' < j ==> scoringMatrix[0, j'] == expected[0][j']
    {
      scoringMatrix[0, j] := AlignmentCell(j * GapPenalty, Left);
    }

    for i := 1 to lengthA + 1
      invariant forall i', j' :: 0 <= i' < i && 0 <= j' <= lengthB ==> scoringMatrix[i', j'] == expected[i'][j']
      invariant forall i' :: 0 <= i' <= lengthA ==> scoringMatrix[i', 0] == expected[i'][0]
    {
      FillRow(scoringMatrix, tokensA, tokensB, score, i, expected);
    }

    var matrix := Rows(scoringMatrix);
    forall i | 0 <= i <= lengthA ensures matrix[i] == expected[i] {
      assert forall j :: 0 <= j <= lengthB ==> matrix[i][j] == expected[i][j];
    }
    assert matrix == expected;
    RecurrenceDeterminesMatrix(matrix, tokensA, tokensB, score);
  }

  /** `alignTokenSequences`: fills the scoring matrix, then backtracks through it. */
  method AlignTokenSequences(tokensA: seq<string>, tokensB: seq<string>, typoSymbols: seq<string>,
                             similarityThreshold: real) returns (alignment: seq<AlignedTokenPair>)
    ensures alignment == Aligned(tokensA, tokensB, Scorer(typoSymbols, similarityThreshold))
  {
    ghost var score := Scorer(typoSymbols, similarityThreshold);
    var scoringMatrix := FillScoringMatrix(tokensA, tokensB, typoSymbols, similarityThreshold);
    var matrix := Rows(scoringMatrix);
    OptimalMatrixFollowsRecurrence(tokensA, tokensB, score);
    RecurrenceIsConsistent(matrix, tokensA, tokensB, score);
    var result := BacktrackAlignment(matrix, tokensA, tokensB);
    BacktrackAchievesScore(matrix, tokensA, tokensB, score, |tokensA|, |tokensB|);
    alignment := result.value;
  }
}
