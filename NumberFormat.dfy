/** Display rounding of counts on the public statistics page (roundToSignificant). */
module NumberFormat {

  /** The band a count falls in: each band has its own rounding step.
      0: below 10, 1: 10..49, 2: 50..99, 3: 100..999, 4: 1000 and above. */
  function Band(value: int): nat
  {
    if value >= 1000 then 4
    else if value >= 100 then 3
    else if value >= 50 then 2
    else if value >= 10 then 1
    else 0
  }

  /** Rounds a count down to the step of its band; values below 10 are kept. */
  function RoundToSignificant(value: int): (r: int)
    ensures r <= value
    ensures Band(r) == Band(value)
    ensures value >= 1000 ==> r % 1000 == 0 && value < r + 1000
    ensures 100 <= value < 1000 ==> r % 100 == 0 && value < r + 100
    ensures 50 <= value < 100 ==> r == 50
    ensures 10 <= value < 50 ==> r % 10 == 0 && value < r + 10
    ensures value < 10 ==> r == value
  {
    if value >= 1000 then (value / 1000) * 1000
    else if value >= 100 then (value / 100) * 100
    else if value >= 50 then (value / 50) * 50
    else if value >= 10 then (value / 10) * 10
    else value
  }

  /** Rounding an already rounded count changes nothing. */
  lemma RoundIdempotent(value: int)
    ensures RoundToSignificant(RoundToSignificant(value)) == RoundToSignificant(value)
  {
    var r := RoundToSignificant(value);
    if value >= 1000 {
      assert (r / 1000) * 1000 == r;
    } else if value >= 100 {
      assert (r / 100) * 100 == r;
    } else if value >= 10 && value < 50 {
      assert (r / 10) * 10 == r;
    }
  }

  /** A larger count never displays as a smaller one. */
  lemma RoundMonotone(a: int, b: int)
    requires a <= b
    ensures RoundToSignificant(a) <= RoundToSignificant(b)
  {
    if Band(a) == Band(b) {
      if a >= 1000 {
        assert a / 1000 <= b / 1000;
      } else if a >= 100 {
        assert a / 100 <= b / 100;
      } else if 10 <= a < 50 {
        assert a / 10 <= b / 10;
      }
    }
  }

  /** The examples the function's documentation gives. */
  lemma RoundExamples()
    ensures RoundToSignificant(1234) == 1000
    ensures RoundToSignificant(87) == 50
    ensures RoundToSignificant(42) == 40
    ensures RoundToSignificant(7) == 7
  {
  }
}
