/**
 * The rating update of app.py. The logistic expected score
 * `1 / (1 + 10 ** ((rb - ra) / 400))` is computed in floating point by the
 * program; here it is an input `ea`, and the rest of the update is carried
 * out exactly over the reals. The logistic formula always lies strictly
 * between 0 and 1; the lemmas that need that range require it.
 */
module Elo {

  /** K_FACTOR: the largest change one comparison can make. */
  const KFactor: int := 32

  /** BASE_ELO: the rating of a newly registered user. */
  const BaseElo: int := 1200

  /**
   * Python's built-in `round` on a number: the nearest integer, and on an
   * exact tie the even one.
   */
  function RoundHalfEven(x: real): (r: int)
    ensures -0.5 <= r as real - x <= 0.5
    ensures (r as real - x == 0.5 || x - r as real == 0.5) ==> r % 2 == 0
  {
    var f := x.Floor;
    var d := x - f as real;
    if d < 0.5 then f
    else if d > 0.5 then f + 1
    else if f % 2 == 0 then f
    else f + 1
  }

  /**
   * `update_elo(ra, rb, sa)` with `ea == expected_score(ra, rb)`: A scores
   * `sa` (1 for a win, 0 for a loss) and B the complement.
   */
  function UpdateElo(ra: int, rb: int, sa: real, ea: real): (r: (int, int))
    ensures -0.5 <= r.0 as real - (ra as real + KFactor as real * (sa - ea)) <= 0.5
    ensures -0.5 <= r.1 as real - (rb as real - KFactor as real * (sa - ea)) <= 0.5
  {
    var raNew := ra as real + KFactor as real * (sa - ea);
    var rbNew := rb as real + KFactor as real * ((1.0 - sa) - (1.0 - ea));
    (RoundHalfEven(raNew), RoundHalfEven(rbNew))
  }

  /** B's unrounded change is exactly the negation of A's. */
  lemma UnroundedZeroSum(ra: int, rb: int, sa: real, ea: real)
    ensures var d := KFactor as real * (sa - ea);
            UpdateElo(ra, rb, sa, ea) == (RoundHalfEven(ra as real + d), RoundHalfEven(rb as real - d))
  {
  }

  /**
   * After rounding, the two ratings keep their total up to one point. The
   * total is kept exactly when it is even, or when A's unrounded new rating
   * is not an exact half.
   */
  lemma RoundedZeroSum(ra: int, rb: int, sa: real, ea: real)
    ensures var (na, nb) := UpdateElo(ra, rb, sa, ea);
            -1 <= (na + nb) - (ra + rb) <= 1
    ensures var (na, nb) := UpdateElo(ra, rb, sa, ea);
            var x := ra as real + KFactor as real * (sa - ea);
            na + nb == ra + rb <==> ((ra + rb) % 2 == 0 || (x - x.Floor as real) != 0.5)
  {
    var x := ra as real + KFactor as real * (sa - ea);
    var y := rb as real + KFactor as real * ((1.0 - sa) - (1.0 - ea));
    var (na, nb) := UpdateElo(ra, rb, sa, ea);
    assert x + y == (ra + rb) as real;
    if na + nb != ra + rb {
      // Both roundings went half a point the same way, so both were ties.
      assert na as real - x == nb as real - y;
      assert na as real - x == 0.5 || x - na as real == 0.5;
      assert na % 2 == 0 && nb % 2 == 0;
      assert x - x.Floor as real == 0.5;
    }
    if (ra + rb) % 2 != 0 && x - x.Floor as real == 0.5 {
      // Both unrounded ratings are ties, so both round to even numbers.
      var f := x.Floor;
      assert y == ((ra + rb) - f - 1) as real + 0.5;
      assert na == f || na == f + 1;
      assert na as real - x == 0.5 || x - na as real == 0.5;
      assert nb as real - y == 0.5 || y - nb as real == 0.5;
      assert na % 2 == 0 && nb % 2 == 0;
    }
  }

  /**
   * An exact half, the only case in which the total moves, needs `64 * ea`
   * to be an odd integer.
   */
  lemma TieNeedsOddSixtyFourths(ra: int, sa: real, ea: real)
    requires sa == 0.0 || sa == 1.0
    requires var x := ra as real + KFactor as real * (sa - ea); x - x.Floor as real == 0.5
    ensures (64.0 * ea).Floor as real == 64.0 * ea && (64.0 * ea).Floor % 2 == 1
  {
    var x := ra as real + KFactor as real * (sa - ea);
    var f := x.Floor;
    var k := 2 * (ra + 32 * sa.Floor - f) - 1;
    assert sa == sa.Floor as real;
    assert 64.0 * ea == k as real;
    assert (64.0 * ea).Floor == k;
  }

  /**
   * The winner never loses points, the loser never gains, and neither
   * moves by more than K.
   */
  lemma WinnerGainsAtMostK(ra: int, rb: int, ea: real)
    requires 0.0 < ea < 1.0
    ensures var (na, nb) := UpdateElo(ra, rb, 1.0, ea);
            ra <= na <= ra + KFactor && rb - KFactor <= nb <= rb
    ensures var (na, nb) := UpdateElo(ra, rb, 0.0, ea);
            ra - KFactor <= na <= ra && rb <= nb <= rb + KFactor
  {
  }

  /** Two 1200-rated users, expected score 0.5, A wins: (1216, 1184). */
  lemma EvenMatchExample()
    ensures UpdateElo(1200, 1200, 1.0, 0.5) == (1216, 1184)
  {
    assert 1216.0.Floor == 1216 && 1184.0.Floor == 1184;
  }

  /**
   * With the hand-chosen expected score 31/64 (an odd number of 64ths, not
   * what the logistic formula gives for 1201 against 1200), A's new rating
   * is 1217.5 and B's 1183.5; both round to the even neighbour and the
   * total grows by one.
   */
  lemma OddTotalTieExample()
    ensures UpdateElo(1201, 1200, 1.0, 31.0 / 64.0) == (1218, 1184)
  {
    assert 1217.5.Floor == 1217 && 1183.5.Floor == 1183;
  }
}
