/** Lab 1's leap-year test. */
module LeapYears {

  /** isLeapYear(year): divisible by 400, or by 4 and not by 100. Java's
      `%` truncates toward zero and Dafny's is Euclidean, but the two agree
      on whether the remainder is zero, so negative years read the same. */
  function IsLeapYear(year: int): (leap: bool)
    ensures leap ==> year % 4 == 0
    ensures year % 100 == 0 && year % 400 != 0 ==> !leap
  {
    Divisors400(year);
    Divisors100(year);
    year % 400 == 0 || (year % 4 == 0 && year % 100 != 0)
  }

  /** A multiple of 400 is one of 100. */
  lemma Divisors400(year: int)
    ensures year % 400 == 0 ==> year % 100 == 0
  {
    if year % 400 == 0 {
      var k := year / 400;
      assert year == 100 * (4 * k);
    }
  }

  /** A multiple of 100 is one of 4. */
  lemma Divisors100(year: int)
    ensures year % 100 == 0 ==> year % 4 == 0
  {
    if year % 100 == 0 {
      var k := year / 100;
      assert year == 4 * (25 * k);
    }
  }

  /** The calendar repeats every 400 years. */
  lemma LeapYearPeriodic(year: int)
    ensures IsLeapYear(year + 400) == IsLeapYear(year)
  {
    Shift400(400, year);
  }

  /** Odd years are never leap years; the year the lab's main checks,
      2000, is one, and 1900 is not. */
  lemma LeapYearCases(year: int)
    ensures year % 2 == 1 ==> !IsLeapYear(year)
    ensures IsLeapYear(2000) && !IsLeapYear(1900) && IsLeapYear(2024) && !IsLeapYear(2023)
  {
  }

  /** The number of leap years among year0 .. year0 + n - 1. */
  function LeapYearsFrom(year0: int, n: nat): (count: nat)
    ensures count <= n
  {
    if n == 0 then 0 else LeapYearsFrom(year0, n - 1) + (if IsLeapYear(year0 + n - 1) then 1 else 0)
  }

  /** Every 400 consecutive years hold 97 leap years. */
  lemma LeapYearsPerCycle(year0: int)
    ensures LeapYearsFrom(year0, 400) == 97
  {
    CycleCount(year0, 400);
  }

  /** The same count with the cycle's length a variable, so that the
      counting function is not evaluated on constants. */
  lemma CycleCount(year0: int, n: nat)
    requires n == 400
    ensures LeapYearsFrom(year0, n) == 97
  {
    var off := year0 % n;
    ShiftMod400(year0 / 400, 0);
    assert year0 - off == 400 * (year0 / 400) + 0;
    ShiftCount(year0 - off, off, n);
    Split(0, off, n - off);
    Split(off, n - off, off);
    ShiftCount(n, 0, off);
    CountUp(n);
  }

  /** Counting from a multiple of 400 only depends on the offset. */
  lemma {:induction false} ShiftCount(base: int, off: int, n: nat)
    requires base % 400 == 0
    ensures LeapYearsFrom(base + off, n) == LeapYearsFrom(off, n)
  {
    if n > 0 {
      ShiftCount(base, off, n - 1);
      Shift400(base, off + n - 1);
    }
  }

  lemma Shift400(base: int, y: int)
    requires base % 400 == 0
    ensures IsLeapYear(base + y) == IsLeapYear(y)
  {
    var k := base / 400;
    assert base == 400 * k;
    ShiftMod400(k, y);
    ShiftMod100(k, y);
    ShiftMod4(k, y);
  }

  lemma ShiftMod400(k: int, y: int)
    ensures (400 * k + y) % 400 == y % 400
  {
  }

  lemma ShiftMod100(k: int, y: int)
    ensures (400 * k + y) % 100 == y % 100
  {
    assert 400 * k + y == 100 * (4 * k) + y;
  }

  lemma ShiftMod4(k: int, y: int)
    ensures (400 * k + y) % 4 == y % 4
  {
    assert 400 * k + y == 4 * (100 * k) + y;
  }

  /** Counting n + m years is counting n, then m more. */
  lemma {:induction false} Split(y: int, n: nat, m: nat)
    ensures LeapYearsFrom(y, n + m) == LeapYearsFrom(y, n) + LeapYearsFrom(y + n, m)
  {
    if m > 0 {
      Split(y, n, m - 1);
    }
  }

  /** One more multiple of d up to x than up to x - 1 exactly when d
      divides x, for d = 4, 100 and 400. */
  lemma Step4(x: nat)
    requires x >= 1
    ensures x / 4 - (x - 1) / 4 == if x % 4 == 0 then 1 else 0
  {
  }

  lemma Step100(x: nat)
    requires x >= 1
    ensures x / 100 - (x - 1) / 100 == if x % 100 == 0 then 1 else 0
  {
  }

  lemma Step400(x: nat)
    requires x >= 1
    ensures x / 400 - (x - 1) / 400 == if x % 400 == 0 then 1 else 0
  {
  }

  /** The count of leap years among years 0 .. n - 1 by formula: year 0,
      then among 1 .. n - 1 the multiples of 4 less those of 100 plus those
      of 400. */
  function LeapYearsBelow(n: nat): int
  {
    if n == 0 then 0 else 1 + (n - 1) / 4 - (n - 1) / 100 + (n - 1) / 400
  }

  /** Going from year x to x + 1 the formula grows by one exactly when x is
      a leap year. */
  lemma LeapStep(x: nat)
    requires x >= 1
    ensures LeapYearsBelow(x + 1) == LeapYearsBelow(x) + (if IsLeapYear(x) then 1 else 0)
  {
    Step4(x);
    Step100(x);
    Step400(x);
    Divisors400(x);
    Divisors100(x);
  }

  /** Counting years 0 .. n - 1 one by one agrees with the formula. */
  lemma {:induction false} CountUp(n: nat)
    ensures LeapYearsFrom(0, n) == LeapYearsBelow(n)
  {
    if n > 1 {
      CountUp(n - 1);
      LeapStep(n - 1);
    }
  }
}
