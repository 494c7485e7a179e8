/**
  The per-image progress percentage: the share of images done, times the span, truncated (main.py
  line 94 with span 80, line 161 with span 60), with the float product and
  truncation modelled as integer floor division.
*/
module Progress {

  function ImagePercent(i: nat, total: nat, span: nat): (p: nat)
    requires i < total
    ensures p <= span
    ensures i + 1 == total ==> p == span
  {
    TimesIsProduct(i + 1, span);
    QuotientIsDivision(Times(i + 1, span), total);
    PercentBounds(i, total, span);
    Quotient(Times(i + 1, span), total)
  }

  /** The percentage is the product `(i + 1) * span` divided by `total`, rounded down. */
  lemma ImagePercentIsFloor(i: nat, total: nat, span: nat)
    requires i < total
    ensures ImagePercent(i, total, span) == (i + 1) * span / total
  {
    TimesIsProduct(i + 1, span);
    QuotientIsDivision(Times(i + 1, span), total);
  }

  /*
    The product and the quotient are computed by recursion rather than with
    `*` and `/`, so that a proof unfolding the loop's events meets only
    linear arithmetic; the two lemmas below tie them to `*` and `/`.
  */

  /** `a * b`, by repeated addition. */
  function Times(a: nat, b: nat): nat {
    if a == 0 then 0 else Times(a - 1, b) + b
  }

  /** `x / t` rounded down, by repeated subtraction. */
  function Quotient(x: nat, t: nat): nat
    requires 0 < t
    decreases x
  {
    if x < t then 0 else 1 + Quotient(x - t, t)
  }

  lemma {:induction false} TimesIsProduct(a: nat, b: nat)
    ensures Times(a, b) == a * b
  {
    if a > 0 {
      TimesIsProduct(a - 1, b);
      assert (a - 1) * b + b == a * b;
    }
  }

  lemma {:induction false} QuotientIsDivision(x: nat, t: nat)
    requires 0 < t
    ensures Quotient(x, t) == x / t
    decreases x
  {
    if x >= t {
      QuotientIsDivision(x - t, t);
      DivStep(x, t);
    }
  }

  /** Taking `t` away from `x` takes one away from `x / t`. */
  lemma DivStep(x: nat, t: nat)
    requires 0 < t <= x
    ensures (x - t) / t + 1 == x / t
  {
    var q := (x - t) / t;
    var r := (x - t) % t;
    assert x == (q + 1) * t + r;
    DivUnique(x, t, q + 1, r);
  }

  /** Division rounds down: the quotient is the `q` with `x == q * t + r` and `0 <= r < t`. */
  lemma DivUnique(x: nat, t: nat, q: nat, r: nat)
    requires 0 < t && r < t && x == q * t + r
    ensures x / t == q
  {
    var q' := x / t;
    assert x == q' * t + x % t;
    if q' < q {
      MulMonotone(q' + 1, q, t);
    } else if q < q' {
      MulMonotone(q + 1, q', t);
    }
  }

  lemma PercentBounds(i: nat, total: nat, span: nat)
    requires i < total
    ensures (i + 1) * span / total <= span
    ensures i + 1 == total ==> (i + 1) * span / total == span
  {
    MulMonotone(i + 1, total, span);
    DivBelow((i + 1) * span, total, span);
    if i + 1 == total {
      DivExact(total, span);
    }
  }

  lemma DivExact(t: nat, s: nat)
    requires 0 < t
    ensures t * s / t == s
  {
    var q := t * s / t;
    assert q * t <= s * t;
    assert s * t < (s + 1) * t;
    MulLessCancel(q, s + 1, t);
    assert s * t < (q + 1) * t;
    MulLessCancel(s, q + 1, t);
  }

  lemma MulMonotone(a: nat, b: nat, c: nat)
    requires a <= b
    ensures a * c <= b * c
  {
  }

  lemma DivBelow(x: nat, t: nat, s: nat)
    requires 0 < t && x <= t * s
    ensures x / t <= s
  {
  }

  lemma MulLessCancel(a: nat, b: nat, t: nat)
    requires a * t < b * t
    ensures a < b
  {
  }

  lemma DivMonotone(x: nat, y: nat, t: nat)
    requires 0 < t && x <= y
    ensures x / t <= y / t
  {
    assert (x / t) * t <= x;
    assert y < (y / t + 1) * t;
    MulLessCancel(x / t, y / t + 1, t);
  }

  /** Later images never report a smaller percentage than earlier ones. */
  lemma ImagePercentMonotone(i: nat, j: nat, total: nat, span: nat)
    requires i <= j < total
    ensures ImagePercent(i, total, span) <= ImagePercent(j, total, span)
  {
    ImagePercentIsFloor(i, total, span);
    ImagePercentIsFloor(j, total, span);
    MulMonotone(i + 1, j + 1, span);
    DivMonotone((i + 1) * span, (j + 1) * span, total);
  }
}
