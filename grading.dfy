/** Marks to results: the SGPA of a list of marks, the letter grade of an SGPA and the
    coaching message of an SGPA. Numbers are exact reals; Python's `round(x, 2)` is
    rounding to the nearest hundredth with ties to even. */
module Grading {

  /** Nearest integer to `y`, ties to the even neighbour. */
  function RoundHalfEven(y: real): (n: int)
    ensures -0.5 <= n as real - y <= 0.5
    ensures (n as real - y == 0.5 || y - n as real == 0.5) ==> n % 2 == 0
  {
    var f := y.Floor;
    var frac := y - f as real;
    if frac < 0.5 then f
    else if frac > 0.5 then f + 1
    else if f % 2 == 0 then f
    else f + 1
  }

  lemma RoundHalfEvenMonotone(y1: real, y2: real)
    requires y1 <= y2
    ensures RoundHalfEven(y1) <= RoundHalfEven(y2)
  {
  }

  lemma RoundHalfEvenOfInt(k: int)
    ensures RoundHalfEven(k as real) == k
  {
  }

  /** `x` is a whole number of hundredths. */
  predicate HasTwoDecimals(x: real)
  {
    (x * 100.0).Floor as real == x * 100.0
  }

  /** `round(x, 2)` */
  function Round2(x: real): (r: real)
    ensures -0.005 <= r - x <= 0.005
    ensures HasTwoDecimals(r)
    ensures (r - x == 0.005 || x - r == 0.005) ==> (r * 100.0).Floor % 2 == 0
  {
    var n := RoundHalfEven(x * 100.0);
    var r := n as real / 100.0;
    assert r * 100.0 == n as real;
    assert (r * 100.0).Floor == n;
    assert r - x == 0.005 ==> n as real - x * 100.0 == 0.5;
    assert x - r == 0.005 ==> x * 100.0 - n as real == 0.5;
    r
  }

  lemma Round2Monotone(x1: real, x2: real)
    requires x1 <= x2
    ensures Round2(x1) <= Round2(x2)
  {
    RoundHalfEvenMonotone(x1 * 100.0, x2 * 100.0);
  }

  /** A value that already has two decimals is left alone by `round(x, 2)`. */
  lemma Round2OfHundredths(x: real)
    requires HasTwoDecimals(x)
    ensures Round2(x) == x
  {
    RoundHalfEvenOfInt((x * 100.0).Floor);
  }

  /** `sum(xs)` */
  function Sum(xs: seq<real>): real
  {
    if |xs| == 0 then 0.0 else Sum(xs[..|xs| - 1]) + xs[|xs| - 1]
  }

  /** `sum(xs) / len(xs)` */
  function Mean(xs: seq<real>): real
    requires |xs| > 0
  {
    Sum(xs) / |xs| as real
  }

  lemma {:induction false} SumBounds(xs: seq<real>, lo: real, hi: real)
    requires forall i :: 0 <= i < |xs| ==> lo <= xs[i] <= hi
    ensures |xs| as real * lo <= Sum(xs) <= |xs| as real * hi
  {
    if |xs| > 0 {
      SumBounds(xs[..|xs| - 1], lo, hi);
    }
  }

  lemma {:induction false} SumMonotone(xs: seq<real>, ys: seq<real>)
    requires |xs| == |ys|
    requires forall i :: 0 <= i < |xs| ==> xs[i] <= ys[i]
    ensures Sum(xs) <= Sum(ys)
  {
    if |xs| > 0 {
      SumMonotone(xs[..|xs| - 1], ys[..|ys| - 1]);
    }
  }

  lemma MeanBounds(xs: seq<real>, lo: real, hi: real)
    requires |xs| > 0
    requires forall i :: 0 <= i < |xs| ==> lo <= xs[i] <= hi
    ensures lo <= Mean(xs) <= hi
  {
    SumBounds(xs, lo, hi);
    var n := |xs| as real;
    assert Sum(xs) / n >= lo by {
      assert Sum(xs) >= n * lo;
    }
    assert Sum(xs) / n <= hi by {
      assert Sum(xs) <= n * hi;
    }
  }

  /** `calculate_sgpa(marks)`: 0 for no marks, otherwise the mean mark divided by ten,
      rounded to two decimals. */
  function Sgpa(marks: seq<real>): (r: real)
    ensures |marks| == 0 ==> r == 0.0
    ensures |marks| > 0 ==> -0.005 <= r - Mean(marks) / 10.0 <= 0.005
    ensures HasTwoDecimals(r)
    ensures |marks| > 0 && (r - Mean(marks) / 10.0 == 0.005 || Mean(marks) / 10.0 - r == 0.005) ==>
      (r * 100.0).Floor % 2 == 0
  {
    if |marks| == 0 then 0.0 else Round2(Sum(marks) / |marks| as real / 10.0)
  }

  /** Marks on the 0..100 scale give an SGPA on the 0..10 scale. */
  lemma SgpaInRange(marks: seq<real>)
    requires forall i :: 0 <= i < |marks| ==> 0.0 <= marks[i] <= 100.0
    ensures 0.0 <= Sgpa(marks) <= 10.0
  {
    if |marks| > 0 {
      MeanBounds(marks, 0.0, 100.0);
      var q := Sum(marks) / |marks| as real / 10.0;
      assert 0.0 <= q <= 10.0;
      Round2Monotone(0.0, q);
      Round2Monotone(q, 10.0);
      Round2OfHundredths(0.0);
      Round2OfHundredths(10.0);
    }
  }

  /** Raising marks never lowers the SGPA. */
  lemma SgpaMonotone(xs: seq<real>, ys: seq<real>)
    requires |xs| == |ys|
    requires forall i :: 0 <= i < |xs| ==> xs[i] <= ys[i]
    ensures Sgpa(xs) <= Sgpa(ys)
  {
    if |xs| > 0 {
      SumMonotone(xs, ys);
      var n := |xs| as real;
      assert Sum(xs) / n / 10.0 <= Sum(ys) / n / 10.0;
      Round2Monotone(Sum(xs) / n / 10.0, Sum(ys) / n / 10.0);
    }
  }

  datatype Grade = O | APlus | A | B | C | F
  {
    /** The letter shown to the user. */
    function Label(): string
    {
      match this
      case O => "O"
      case APlus => "A+"
      case A => "A"
      case B => "B"
      case C => "C"
      case F => "F"
    }

    /** Position in the order F < C < B < A < A+ < O. */
    function Rank(): nat
    {
      match this
      case F => 0
      case C => 1
      case B => 2
      case A => 3
      case APlus => 4
      case O => 5
    }

    /** The lowest SGPA that earns this grade. */
    function Threshold(): real
      requires this != F
    {
      match this
      case O => 9.0
      case APlus => 8.0
      case A => 7.0
      case B => 6.0
      case C => 5.0
    }

    /** The grade one step up. */
    function Next(): Grade
      requires this != O
    {
      match this
      case F => C
      case C => B
      case B => A
      case A => APlus
      case APlus => O
    }
  }

  /** `assign_grade(sgpa)`: the grade band the SGPA falls in. */
  function AssignGrade(sgpa: real): (g: Grade)
    ensures g == F || g.Threshold() <= sgpa
    ensures g == O || sgpa < g.Next().Threshold()
  {
    if sgpa >= 9.0 then O
    else if sgpa >= 8.0 then APlus
    else if sgpa >= 7.0 then A
    else if sgpa >= 6.0 then B
    else if sgpa >= 5.0 then C
    else F
  }

  /** Distinct grades carry distinct labels, so counting grades and counting the label
      strings `assign_grade` returns give the same distribution. */
  lemma LabelInjective(g1: Grade, g2: Grade)
    ensures g1.Label() == g2.Label() <==> g1 == g2
  {
    assert "A+"[1] != "A"[0];
  }

  /** A higher SGPA never gets a lower grade. */
  lemma GradeMonotone(s: real, t: real)
    requires s <= t
    ensures AssignGrade(s).Rank() <= AssignGrade(t).Rank()
  {
  }

  lemma GradeBoundaries()
    ensures AssignGrade(9.0) == O
    ensures AssignGrade(8.999) == APlus
    ensures AssignGrade(6.0) == B
    ensures AssignGrade(5.0) == C && AssignGrade(4.99) == F
  {
  }

  /** Raising any marks never lowers the grade. */
  lemma GradeMonotoneInMarks(xs: seq<real>, ys: seq<real>)
    requires |xs| == |ys|
    requires forall i :: 0 <= i < |xs| ==> xs[i] <= ys[i]
    ensures AssignGrade(Sgpa(xs)).Rank() <= AssignGrade(Sgpa(ys)).Rank()
  {
    SgpaMonotone(xs, ys);
    GradeMonotone(Sgpa(xs), Sgpa(ys));
  }

  const Excellent := "Excellent! Keep it up!"
  const Good := "Good! You can improve further to reach 9+."
  const Nice := "Nice! Try to focus a bit more on weak areas."
  const Average := "Average performance. Work harder to improve."
  const Serious := "Need serious improvement. Focus on your studies."

  /** `give_suggestions(sgpa)`: the suggestion bands are the grade bands with C and F
      merged. */
  function GiveSuggestion(sgpa: real): (msg: string)
    ensures msg == AdviceFor(AssignGrade(sgpa))
  {
    if sgpa >= 9.0 then Excellent
    else if sgpa >= 8.0 then Good
    else if sgpa >= 7.0 then Nice
    else if sgpa >= 6.0 then Average
    else Serious
  }

  /** The message that goes with each grade: C and F share one. */
  function AdviceFor(g: Grade): string
  {
    match g
    case O => Excellent
    case APlus => Good
    case A => Nice
    case B => Average
    case C | F => Serious
  }

  /** Every SGPA below 6, graded C or F, and no other, gets the "serious" message. */
  lemma SeriousExactlyBelowSix(sgpa: real)
    ensures GiveSuggestion(sgpa) == Serious <==> sgpa < 6.0
    ensures GiveSuggestion(sgpa) == Serious <==> AssignGrade(sgpa) in {C, F}
  {
    assert |Serious| != |Excellent| && |Serious| != |Good|;
    assert |Serious| != |Nice| && |Serious| != |Average|;
  }
}
