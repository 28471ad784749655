/** `progressBar` of `mget/core.py` with `decimals=0`, the only form the
    downloader uses. The percentage and the number of filled cells are exact
    quotients rounded half to even, as Python's `round` and `'{:.0f}'` do. */
module Progress {
  import opened Base
  import opened Strings

  const FullCell: char := '\U{2588}'
  const EmptyCell: char := '\U{2591}'

  function Abs(x: int): nat {
    if x < 0 then -x else x
  }

  /** `p / q` rounded to the nearest integer, a tie going to the even one. */
  function RoundHalfEven(p: int, q: int): (r: int)
    requires q > 0
    ensures 2 * (p - r * q) <= q && 2 * (r * q - p) <= q
    ensures 2 * (p - r * q) == q || 2 * (r * q - p) == q ==> r % 2 == 0
    ensures p >= 0 ==> r >= 0
  {
    var f := p / q;
    var m := p % q;
    assert p == f * q + m;
    assert (f + 1) * q == f * q + q;
    assert p >= 0 ==> f >= 0;
    if 2 * m < q then f
    else if 2 * m > q then f + 1
    else if f % 2 == 0 then f
    else f + 1
  }

  lemma MulMonotone(a: int, b: int, q: int)
    requires a <= b && q >= 0
    ensures a * q <= b * q
  {
  }

  lemma MulDistrib(a: int, b: int, q: int)
    ensures a * q - b * q == (a - b) * q
  {
  }

  /** Two integers within one half of `p / q` are equal or adjacent, and
      adjacent ones both lie exactly one half away. */
  lemma NearestPair(p: int, q: int, r: int, s: int)
    requires q > 0 && r > s
    requires 2 * (r * q - p) <= q
    requires 2 * (p - s * q) <= q
    ensures r == s + 1 && 2 * (r * q - p) == q && 2 * (p - s * q) == q
  {
    MulDistrib(r, s, q);
    if r >= s + 2 {
      MulMonotone(2, r - s, q);
      assert false;
    }
    assert (r - s) * q == q;
  }

  /** An integer within one half of `p / q` that breaks ties to even is the
      rounded quotient: the contract of RoundHalfEven determines it. */
  lemma RoundHalfEvenUnique(p: int, q: int, r: int)
    requires q > 0
    requires 2 * (p - r * q) <= q && 2 * (r * q - p) <= q
    requires 2 * (p - r * q) == q || 2 * (r * q - p) == q ==> r % 2 == 0
    ensures r == RoundHalfEven(p, q)
  {
    var s := RoundHalfEven(p, q);
    if r > s {
      NearestPair(p, q, r, s);
    } else if s > r {
      NearestPair(p, q, s, r);
    }
  }

  /** Rounding a larger numerator never gives a smaller result. */
  lemma RoundHalfEvenMonotone(p1: int, p2: int, q: int)
    requires q > 0 && p1 <= p2
    ensures RoundHalfEven(p1, q) <= RoundHalfEven(p2, q)
  {
    var r1, r2 := RoundHalfEven(p1, q), RoundHalfEven(p2, q);
    if r1 > r2 {
      NearestPair(p1, q, r1, r2);
    }
  }

  /** An exact multiple is its own rounded quotient. */
  lemma RoundHalfEvenExact(k: int, q: int)
    requires q > 0
    ensures RoundHalfEven(k * q, q) == k
  {
    RoundHalfEvenUnique(k * q, q, k);
  }

  /** `round(p / float(q))` for either sign of `q`. */
  function RoundQuotient(p: int, q: int): (r: int)
    requires q != 0
    ensures 2 * Abs(p - r * q) <= Abs(q)
    ensures 2 * Abs(p - r * q) == Abs(q) ==> r % 2 == 0
  {
    if q > 0 then RoundHalfEven(p, q)
    else
      var r := RoundHalfEven(-p, -q);
      RoundNegated(p, q, r);
      r
  }

  /** What `RoundHalfEven(-p, -q)` promises, restated for `p` and `q`. */
  lemma RoundNegated(p: int, q: int, r: int)
    requires q < 0
    requires 2 * (-p - r * -q) <= -q && 2 * (r * -q - -p) <= -q
    requires 2 * (-p - r * -q) == -q || 2 * (r * -q - -p) == -q ==> r % 2 == 0
    ensures 2 * Abs(p - r * q) <= Abs(q)
    ensures 2 * Abs(p - r * q) == Abs(q) ==> r % 2 == 0
  {
    var m := r * q;
    assert r * -q == -m;
  }

  /** `int(round(b_length * curr / float(total)))`. */
  function FilledCells(curr: int, total: int, barLength: int): (f: int)
    requires total != 0
    ensures 0 <= curr <= total && barLength >= 0 ==> 0 <= f <= barLength
  {
    if 0 <= curr <= total && barLength >= 0 then
      RoundScaledInRange(curr, total, barLength);
      RoundQuotient(barLength * curr, total)
    else RoundQuotient(barLength * curr, total)
  }

  /** `'{0:.0f}'.format(100 * (curr / float(total)))`: the sign follows the
      float quotient (so `0 / -5` prints `-0`), the digits are the rounded
      magnitude. */
  function PercentText(curr: int, total: int): (t: string)
    requires total != 0
    ensures |t| > 0
    ensures t[0] == '-' || IsDigit(t[0])
    ensures t[0] == '-' <==> (curr < 0 && total > 0) || (curr >= 0 && total < 0)
    ensures forall i | 0 < i < |t| :: IsDigit(t[i])
    ensures curr >= 0 && total > 0 ==> t == NatToDecimal(RoundHalfEven(100 * curr, total))
  {
    var negative := (curr < 0 && total > 0) || (curr >= 0 && total < 0);
    var digits := NatToDecimal(RoundHalfEven(100 * Abs(curr), Abs(total)));
    var t := (if negative then "-" else "") + digits;
    assert !negative ==> t == digits;
    assert negative ==> forall i | 0 < i < |t| :: t[i] == digits[i - 1];
    t
  }

  /** The bar itself: filled cells, then empty ones up to `barLength`. */
  function Bar(filled: int, barLength: int): (b: string)
    ensures 0 <= filled <= barLength ==> |b| == barLength
    ensures forall i | 0 <= i < |b| :: b[i] == if i < filled then FullCell else EmptyCell
  {
    var full := Repeat(FullCell, filled);
    var b := full + Repeat(EmptyCell, barLength - filled);
    assert forall i | |full| <= i < |b| :: b[i] == Repeat(EmptyCell, barLength - filled)[i - |full|];
    b
  }

  lemma AffixesOf(head: string, middle: string, tail: string)
    ensures StartsWith(head + middle + tail, head) && EndsWith(head + middle + tail, tail)
  {
    var line := head + middle + tail;
    assert line[..|head|] == head;
    assert line[|line| - |tail|..] == tail;
  }

  /** `progressBar(curr, total, b_length, prefix, suffix)`; a total of 0 is
      the ZeroDivisionError of `curr / float(total)`. */
  function ProgressBar(curr: int, total: int, barLength: int, prefix: string, suffix: string): (r: Result<string>)
    ensures r.Failure? <==> total == 0
    ensures r.Failure? ==> r.error == DivisionByZero
    ensures r.Success? ==> StartsWith(r.value, "\r" + prefix + " |") && EndsWith(r.value, "% " + suffix)
  {
    if total == 0 then Failure(DivisionByZero)
    else
      var line := "\r" + prefix + " |" + Bar(FilledCells(curr, total, barLength), barLength)
        + "| " + PercentText(curr, total) + "% " + suffix;
      AffixesOf("\r" + prefix + " |", Bar(FilledCells(curr, total, barLength), barLength)
        + "| " + PercentText(curr, total), "% " + suffix);
      Success(line)
  }

  /** For `0 <= n <= total`, `round(b * n / total)` lies between 0 and `b`. */
  lemma RoundScaledInRange(n: int, total: int, b: int)
    requires 0 <= n <= total && total > 0 && b >= 0
    ensures 0 <= RoundHalfEven(b * n, total) <= b
  {
    MulMonotone(0, n, b);
    MulMonotone(n, total, b);
    assert b * n == n * b && b * total == total * b;
    RoundHalfEvenMonotone(0, b * n, total);
    RoundHalfEvenMonotone(b * n, b * total, total);
    RoundHalfEvenExact(0, total);
    RoundHalfEvenExact(b, total);
  }

  /** For a position within `[0, total]` and a non-negative width, the bar
      has exactly that width, its first `round(b * curr / total)` cells are
      filled and the rest empty, and the percentage is the digits of a
      rounded value between 0 and 100. */
  lemma ProgressBarInRange(curr: int, total: int, barLength: int, prefix: string, suffix: string)
    requires 0 <= curr <= total && total > 0 && barLength >= 0
    ensures var f := RoundHalfEven(barLength * curr, total);
      && 0 <= f <= barLength
      && |Bar(f, barLength)| == barLength
      && (forall i | 0 <= i < f :: Bar(f, barLength)[i] == FullCell)
      && (forall i | f <= i < barLength :: Bar(f, barLength)[i] == EmptyCell)
    ensures 0 <= RoundHalfEven(100 * curr, total) <= 100
    ensures ProgressBar(curr, total, barLength, prefix, suffix) ==
      Success("\r" + prefix + " |" + Bar(RoundHalfEven(barLength * curr, total), barLength)
        + "| " + NatToDecimal(RoundHalfEven(100 * curr, total)) + "% " + suffix)
  {
    RoundScaledInRange(curr, total, barLength);
    RoundScaledInRange(curr, total, 100);
    var f := RoundHalfEven(barLength * curr, total);
    assert FilledCells(curr, total, barLength) == f;
    assert Abs(curr) == curr && Abs(total) == total;
    assert PercentText(curr, total) == NatToDecimal(RoundHalfEven(100 * curr, total));
    var bar := Bar(f, barLength);
    assert bar == Repeat(FullCell, f) + Repeat(EmptyCell, barLength - f);
    forall i | f <= i < barLength ensures bar[i] == EmptyCell {
      assert bar[i] == Repeat(EmptyCell, barLength - f)[i - f];
    }
  }

  /** With a positive total, a later position never shows fewer filled cells
      or a smaller percentage. */
  lemma ProgressMonotone(c1: int, c2: int, total: int, barLength: int)
    requires c1 <= c2 && total > 0 && barLength >= 0
    ensures FilledCells(c1, total, barLength) <= FilledCells(c2, total, barLength)
    ensures RoundHalfEven(100 * c1, total) <= RoundHalfEven(100 * c2, total)
  {
    MulMonotone(c1, c2, barLength);
    assert barLength * c1 == c1 * barLength && barLength * c2 == c2 * barLength;
    RoundHalfEvenMonotone(barLength * c1, barLength * c2, total);
    RoundHalfEvenMonotone(100 * c1, 100 * c2, total);
  }

  lemma HundredDigits()
    ensures NatToDecimal(100) == "100"
  {
    assert NatToDecimal(1) == "1";
    assert NatToDecimal(10) == NatToDecimal(1) + "0";
    assert NatToDecimal(100) == NatToDecimal(10) + "0";
  }

  /** `progressBar(100, 100, ...)`, the closing render of a download, is a
      completely filled bar at 100%. */
  lemma ProgressBarComplete(barLength: int, prefix: string, suffix: string)
    requires barLength >= 0
    ensures ProgressBar(100, 100, barLength, prefix, suffix) ==
      Success("\r" + prefix + " |" + Repeat(FullCell, barLength) + "| " + "100" + "% " + suffix)
  {
    ProgressBarInRange(100, 100, barLength, prefix, suffix);
    RoundHalfEvenExact(barLength, 100);
    assert barLength * 100 == 100 * barLength;
    RoundHalfEvenExact(100, 100);
    HundredDigits();
    assert Bar(barLength, barLength) == Repeat(FullCell, barLength);
  }
}
