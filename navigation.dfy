/**
  The display cursor's updaters: the month buttons compute
  `(m - 1 + 12) % 12` and `(m + 1) % 12` with JavaScript's `%`, and the year
  buttons `y - 1` and `y + 1`. Wrapping the month never carries into the year.
*/
module Navigation {

  /** JavaScript's `%` on integers: truncating, the result has the dividend's sign. */
  function JsRemainder(a: int, b: int): (r: int)
    requires b > 0
    ensures a >= 0 ==> r == a % b
    ensures a < 0 ==> -b < r <= 0
  {
    if a >= 0 then a % b else -((-a) % b)
  }

  /** The month "-" button. */
  function PreviousMonth(m: int): (r: int)
    ensures 0 <= m < 12 ==> 0 <= r < 12 && r == if m == 0 then 11 else m - 1
  {
    JsRemainder(m - 1 + 12, 12)
  }

  /** The month "+" button. */
  function NextMonth(m: int): (r: int)
    ensures 0 <= m < 12 ==> 0 <= r < 12 && r == if m == 11 then 0 else m + 1
  {
    JsRemainder(m + 1, 12)
  }

  /** The year "-" button. */
  function PreviousYear(y: int): (r: int)
    ensures r < y && y - r == 1
  {
    y - 1
  }

  /** The year "+" button. */
  function NextYear(y: int): (r: int)
    ensures r > y && r - y == 1
  {
    y + 1
  }

  lemma YearStepsCancel(y: int)
    ensures PreviousYear(NextYear(y)) == y && NextYear(PreviousYear(y)) == y
  {
  }

  lemma MonthStepsCancel(m: int)
    requires 0 <= m < 12
    ensures PreviousMonth(NextMonth(m)) == m
    ensures NextMonth(PreviousMonth(m)) == m
  {
  }

  /** The month after `k` presses of "+". */
  function NextMonthPresses(m: int, k: nat): int {
    if k == 0 then m else NextMonth(NextMonthPresses(m, k - 1))
  }

  /** Pressing "+" `k` times moves the month by `k` modulo 12, so twelve presses return to it. */
  lemma {:induction false} NextMonthPressesWrap(m: int, k: nat)
    requires 0 <= m < 12
    ensures NextMonthPresses(m, k) == (m + k) % 12
  {
    if k > 0 {
      NextMonthPressesWrap(m, k - 1);
      assert NextMonthPresses(m, k) == NextMonth(NextMonthPresses(m, k - 1));
      PressStep(NextMonthPresses(m, k - 1), m + k - 1);
    }
  }

  /** One press from the remainder of `x` gives the remainder of `x + 1`. */
  lemma PressStep(r: int, x: int)
    requires r == x % 12
    ensures NextMonth(r) == (x + 1) % 12
  {
    assert 0 <= r < 12;
    TwelveSuccessor(x);
  }

  lemma TwelveSuccessor(x: int)
    ensures (x + 1) % 12 == if x % 12 == 11 then 0 else x % 12 + 1
  {
    var q, r := x / 12, x % 12;
    assert x == 12 * q + r;
    if r == 11 {
      assert x + 1 == 12 * (q + 1);
    } else {
      assert x + 1 == 12 * q + (r + 1);
    }
  }
}
