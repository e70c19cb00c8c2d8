/** The duration editor: a minutes field, a seconds field and a slider over
    one total number of seconds held by the countdown. The editor keeps no
    state of its own; every edit computes a new total from the current total
    and the entered value and hands it to the countdown. Entered values are
    taken as already parsed integers, 0 standing for empty or non-numeric
    input (`Number(value) || 0`). */
module DurationEditor {
  import opened Clock

  const MAX_MINUTES := 720
  const MAX_SECONDS := 59
  const SLIDER_MAX := 3600
  const SLIDER_STEP := 15

  function Min(a: int, b: int): int {
    if a <= b then a else b
  }

  function Max(a: int, b: int): int {
    if a >= b then a else b
  }

  function Abs(x: int): int {
    if x < 0 then -x else x
  }

  /** Math.floor(total / 60); Dafny's division by a positive divisor is the
      floor for negative dividends as well. */
  function MinutesOf(total: int): int {
    total / 60
  }

  /** total % 60 with JavaScript's remainder, negative for a negative total. */
  function SecondsOf(total: int): (s: int)
    ensures -MAX_SECONDS <= s <= MAX_SECONDS
  {
    JsRem(total, 60)
  }

  /** On a non-negative total the two fields split it exactly. */
  lemma SplitRecombines(total: int)
    requires total >= 0
    ensures MinutesOf(total) >= 0 && 0 <= SecondsOf(total) <= MAX_SECONDS
    ensures MinutesOf(total) * 60 + SecondsOf(total) == total
  {
  }

  /** On a negative total that is not a whole number of minutes, the floored
      minutes and the truncated seconds are one minute short of it. */
  lemma SplitOfNegativeTotal(total: int)
    requires total < 0 && total % 60 != 0
    ensures -MAX_SECONDS <= SecondsOf(total) < 0
    ensures MinutesOf(total) * 60 + SecondsOf(total) == total - 60
  {
    var m := -total;
    assert m == (m / 60) * 60 + m % 60;
    assert total == (total / 60) * 60 + total % 60;
    assert 0 < m % 60;
    assert total / 60 == -(m / 60) - 1 by {
      assert total == (-(m / 60) - 1) * 60 + (60 - m % 60);
    }
  }

  /** The minutes field as written: min(720, v) minutes and the current
      seconds; there is no lower bound on v. */
  function MinutesEdit(total: int, v: int): int {
    Min(MAX_MINUTES, v) * 60 + SecondsOf(total)
  }

  /** A non-negative minutes edit keeps the seconds part of a non-negative
      total, replaces its minutes by min(720, v), and stays within
      720:59. */
  lemma MinutesEditKeepsSeconds(total: int, v: int)
    requires total >= 0 && v >= 0
    ensures var r := MinutesEdit(total, v);
      0 <= r <= MAX_MINUTES * 60 + MAX_SECONDS
      && MinutesOf(r) == Min(MAX_MINUTES, v)
      && SecondsOf(r) == SecondsOf(total)
  {
    var r := MinutesEdit(total, v);
    var s := SecondsOf(total);
    assert r == Min(MAX_MINUTES, v) * 60 + s;
    assert r / 60 == Min(MAX_MINUTES, v) && r % 60 == s;
  }

  /** A negative minutes entry passes straight through, whatever the current
      total: the total handed to the countdown is negative. */
  lemma MinutesEditAcceptsNegative(total: int, v: int)
    requires v < 0
    ensures MinutesEdit(total, v) == v * 60 + SecondsOf(total) < 0
  {
  }

  /** Once the total is negative and not a whole number of minutes, a
      minutes entry of at least 1 does not keep the seconds: the negative
      seconds part is added to the new minutes, so one minute is lost and the
      seconds go up by 60. */
  lemma MinutesEditOnNegativeTotal(total: int, v: int)
    requires total < 0 && total % 60 != 0 && v >= 1
    ensures var r := MinutesEdit(total, v);
      r > 0 && MinutesOf(r) == Min(MAX_MINUTES, v) - 1
      && SecondsOf(r) == SecondsOf(total) + 60 != SecondsOf(total)
  {
    SplitOfNegativeTotal(total);
    var m := Min(MAX_MINUTES, v);
    var s := SecondsOf(total);
    var r := MinutesEdit(total, v);
    assert r == (m - 1) * 60 + (s + 60);
    assert 0 < s + 60 < 60;
    assert r / 60 == m - 1 && r % 60 == s + 60;
  }

  /** For example, entering -1 minutes on a total of 30 seconds gives -30
      seconds, and entering 2 minutes on that gives 90 seconds: 1 minute 30
      seconds rather than 2 minutes. */
  lemma MinutesEditOnNegativeTotalExample()
    ensures MinutesEdit(30, -1) == -30
    ensures MinutesEdit(-30, 2) == 90
    ensures MinutesOf(90) == 1 && SecondsOf(90) == 30
  {
  }

  /** For example, entering -1 minutes on a zero total hands -60 seconds to
      the countdown. */
  lemma MinutesEditNegativeExample()
    ensures MinutesEdit(0, -1) == -60
  {
  }

  function Clamp(v: int, lo: int, hi: int): (r: int)
    requires lo <= hi
    ensures lo <= r <= hi
    ensures lo <= v <= hi ==> r == v
    ensures v < lo ==> r == lo
    ensures v > hi ==> r == hi
  {
    Max(lo, Min(hi, v))
  }

  /** The minutes field as the input's own range [0, 720] intends it. */
  function MinutesEditClamped(total: int, v: int): int {
    Clamp(v, 0, MAX_MINUTES) * 60 + SecondsOf(total)
  }

  /** Every minutes edit of a non-negative total is a non-negative total
      whose minutes are the clamped entry and whose seconds are kept; on
      entries the source already handles correctly the two agree. */
  lemma MinutesEditClampedInRange(total: int, v: int)
    requires total >= 0
    ensures var r := MinutesEditClamped(total, v);
      0 <= r <= MAX_MINUTES * 60 + MAX_SECONDS
      && MinutesOf(r) == Clamp(v, 0, MAX_MINUTES)
      && SecondsOf(r) == SecondsOf(total)
      && (v >= 0 ==> r == MinutesEdit(total, v))
  {
    var r := MinutesEditClamped(total, v);
    var s := SecondsOf(total);
    assert r == Clamp(v, 0, MAX_MINUTES) * 60 + s;
    assert r / 60 == Clamp(v, 0, MAX_MINUTES) && r % 60 == s;
  }

  /** With the lower clamp, -1 minutes on 30 seconds keeps 30 seconds, and a
      further 2 minutes gives 2 minutes 30 seconds. */
  lemma MinutesEditClampedExample()
    ensures MinutesEditClamped(30, -1) == 30
    ensures MinutesEditClamped(30, 2) == 150
    ensures MinutesOf(150) == 2 && SecondsOf(150) == 30
  {
  }

  /** The seconds field: the current minutes and the entry clamped to [0, 59]. */
  function SecondsEdit(total: int, v: int): int {
    MinutesOf(total) * 60 + Clamp(v, 0, MAX_SECONDS)
  }

  /** A seconds edit keeps the minutes part and replaces the seconds part by
      the clamped entry, for every total; it keeps a non-negative total
      non-negative. */
  lemma SecondsEditKeepsMinutes(total: int, v: int)
    ensures var r := SecondsEdit(total, v);
      MinutesOf(r) == MinutesOf(total)
      && r % 60 == Clamp(v, 0, MAX_SECONDS)
      && (total >= 0 ==> 0 <= r && SecondsOf(r) == Clamp(v, 0, MAX_SECONDS))
  {
    var r := SecondsEdit(total, v);
    var c := Clamp(v, 0, MAX_SECONDS);
    assert r == MinutesOf(total) * 60 + c;
    assert r / 60 == MinutesOf(total) && r % 60 == c;
  }

  /** On a negative total, a positive seconds entry c does not show as c:
      the minutes stay negative, so the truncating remainder read back is
      c - 60. */
  lemma SecondsEditOnNegativeTotal(total: int, v: int)
    requires total < 0 && v >= 1
    ensures var r := SecondsEdit(total, v);
      r < 0 && MinutesOf(r) == MinutesOf(total)
      && SecondsOf(r) == Clamp(v, 0, MAX_SECONDS) - 60
  {
    var m := MinutesOf(total);
    var c := Clamp(v, 0, MAX_SECONDS);
    var r := SecondsEdit(total, v);
    assert m <= -1 && 1 <= c <= 59;
    assert r == m * 60 + c;
    assert -r == (-m - 1) * 60 + (60 - c);
    assert (-r) % 60 == 60 - c;
    assert r / 60 == m;
  }

  /** For example, entering 10 seconds on a total of -30 seconds gives -50
      seconds, shown as -1 minutes and -50 seconds. */
  lemma SecondsEditOnNegativeTotalExample()
    ensures SecondsEdit(-30, 10) == -50
    ensures MinutesOf(-50) == -1 && SecondsOf(-50) == -50
  {
  }

  /** Math.round(x): the integer nearest to x, halves rounded up. */
  function Round(x: real): int {
    (x + 0.5).Floor
  }

  /** The slider: Math.round(v / 15) * 15. */
  function SliderEdit(v: int): int {
    Round(v as real / SLIDER_STEP as real) * SLIDER_STEP
  }

  /** On integers the rounding is integer arithmetic. */
  lemma SliderIsIntegerRounding(v: int)
    ensures SliderEdit(v) == ((2 * v + 15) / 30) * SLIDER_STEP
  {
    var q := (2 * v + 15) / 30;
    var x := v as real / 15.0 + 0.5;
    assert x == (2 * v + 15) as real / 30.0;
    assert q * 30 <= 2 * v + 15 < q * 30 + 30;
    assert q as real <= x < q as real + 1.0;
    assert x.Floor == q;
  }

  /** The slider emits a multiple of 15 within 7 of the entry. */
  lemma SliderSnaps(v: int)
    ensures SliderEdit(v) % SLIDER_STEP == 0
    ensures v - 7 <= SliderEdit(v) <= v + 7
  {
    SliderIsIntegerRounding(v);
    var q := (2 * v + 15) / 30;
    assert q * 30 <= 2 * v + 15 < q * 30 + 30;
  }

  /** The multiple of 15 the slider emits is the nearest one to the entry. */
  lemma SliderIsNearest(v: int, k: int)
    ensures Abs(SliderEdit(v) - v) <= Abs(k * SLIDER_STEP - v)
  {
    SliderSnaps(v);
    var q := SliderEdit(v) / 15;
    assert SliderEdit(v) == q * 15;
    if k > q {
      assert k * 15 >= q * 15 + 15;
    } else if k < q {
      assert k * 15 <= q * 15 - 15;
    }
  }

  /** Entries within the slider's range [0, 3600] give totals within it. */
  lemma SliderStaysInRange(v: int)
    requires 0 <= v <= SLIDER_MAX
    ensures 0 <= SliderEdit(v) <= SLIDER_MAX
  {
    SliderIsIntegerRounding(v);
  }

  /** A multiple of 15 is emitted unchanged, so rounding twice is rounding
      once. */
  lemma SliderIdempotent(v: int)
    ensures v % SLIDER_STEP == 0 ==> SliderEdit(v) == v
    ensures SliderEdit(SliderEdit(v)) == SliderEdit(v)
  {
    SliderSnaps(v);
    SliderIsIntegerRounding(v);
    SliderIsIntegerRounding(SliderEdit(v));
    if v % 15 == 0 {
      var q := v / 15;
      assert v == 15 * q;
      assert (2 * v + 15) / 30 == q by {
        assert 2 * v + 15 == q * 30 + 15;
      }
    }
    var w := SliderEdit(v);
    var p := w / 15;
    assert w == 15 * p;
    assert (2 * w + 15) / 30 == p by {
      assert 2 * w + 15 == p * 30 + 15;
    }
  }

  /** From a non-negative total, every edit with in-range entries (the
      corrected minutes edit for any entry) yields a non-negative total, so
      the countdown is only ever configured with a non-negative duration. */
  lemma EditsKeepDurationNonNegative(total: int, v: int)
    requires total >= 0
    ensures MinutesEditClamped(total, v) >= 0
    ensures SecondsEdit(total, v) >= 0
    ensures v >= 0 ==> MinutesEdit(total, v) >= 0
    ensures 0 <= v <= SLIDER_MAX ==> SliderEdit(v) >= 0
  {
    MinutesEditClampedInRange(total, v);
    SecondsEditKeepsMinutes(total, v);
    if 0 <= v <= SLIDER_MAX {
      SliderStaysInRange(v);
    }
  }
}
