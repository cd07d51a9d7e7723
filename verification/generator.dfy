/** The constrained random-fraction generator. Randomness is not modelled: every
    draw the generator makes is an argument, constrained by a precondition to the
    range the generator draws it from. A rejection loop runs over a finite
    sequence of candidate draws and stops at the first one it accepts. */
module Generator {
  import opened Categories

  /** One draw of two numbers; the range of the second may depend on the first. */
  type Draw = (nat, nat)

  /** Integer square root, counted up from the root of `n - 1`. */
  function Isqrt(n: nat): nat
  {
    if n == 0 then 0
    else
      var s := Isqrt(n - 1);
      if (s + 1) * (s + 1) <= n then s + 1 else s
  }

  /** `Isqrt(n)` is the largest `r` with `r * r <= n`. */
  lemma {:induction false} IsqrtIsRoot(n: nat)
    ensures Isqrt(n) * Isqrt(n) <= n < (Isqrt(n) + 1) * (Isqrt(n) + 1)
  {
    if n > 0 {
      IsqrtIsRoot(n - 1);
      var s := Isqrt(n - 1);
      assert (s + 2) * (s + 2) == (s + 1) * (s + 1) + 2 * s + 3;
    }
  }

  lemma IsqrtAtMost(n: nat)
    requires n >= 1
    ensures 1 <= Isqrt(n) <= n
  {
    IsqrtIsRoot(n);
    var r := Isqrt(n);
    if r >= 1 {
      assert r <= r * r;
    }
  }

  /** Any `a` with `a * a <= n` is at most `Isqrt(n)`. */
  lemma AtMostIsqrt(n: nat, a: nat)
    requires a * a <= n
    ensures a <= Isqrt(n)
  {
    IsqrtIsRoot(n);
  }

  /** The divisors `i` of `n` with `lo <= i <= hi`, in increasing order
      (`DivisorsFromIncreasing`). */
  function DivisorsFrom(n: nat, lo: nat, hi: nat): (ds: seq<nat>)
    requires lo >= 1
    ensures forall j :: 0 <= j < |ds| ==> lo <= ds[j] <= hi && Divides(ds[j], n)
    ensures forall d :: lo <= d <= hi && Divides(d, n) ==> d in ds
    decreases hi + 1 - lo
  {
    if lo > hi then []
    else if n % lo == 0 then [lo] + DivisorsFrom(n, lo + 1, hi)
    else DivisorsFrom(n, lo + 1, hi)
  }

  predicate StrictlyIncreasing(ds: seq<nat>)
  {
    forall i, j :: 0 <= i < j < |ds| ==> ds[i] < ds[j]
  }

  lemma PrependKeepsIncreasing(x: nat, rest: seq<nat>)
    requires StrictlyIncreasing(rest)
    requires forall k :: 0 <= k < |rest| ==> x < rest[k]
    ensures StrictlyIncreasing([x] + rest)
  {
    var ds := [x] + rest;
    forall i, j | 0 <= i < j < |ds|
      ensures ds[i] < ds[j]
    {
      assert ds[j] == rest[j - 1];
      if i > 0 {
        assert ds[i] == rest[i - 1];
      }
    }
  }

  /** The divisors are collected in the order the loop visits them, so the
      list is strictly increasing. */
  lemma {:induction false} DivisorsFromIncreasing(n: nat, lo: nat, hi: nat)
    requires lo >= 1
    ensures StrictlyIncreasing(DivisorsFrom(n, lo, hi))
    decreases hi + 1 - lo
  {
    if lo <= hi {
      var rest := DivisorsFrom(n, lo + 1, hi);
      DivisorsFromIncreasing(n, lo + 1, hi);
      if n % lo == 0 {
        PrependKeepsIncreasing(lo, rest);
      }
    }
  }

  /** The list the Apparent branch collects for a candidate `n`: 1, then `n`,
      then every `i` in [2, Isqrt(n)] that divides `n`. */
  function DivisorList(n: nat): seq<nat>
    requires n >= 1
  {
    [1, n] + DivisorsFrom(n, 2, Isqrt(n))
  }

  /** The collected list starts with 1 and `n`, holds only divisors of `n` in
      [1, n], and after its first two entries holds exactly the divisors in
      [2, Isqrt(n)]: only the small divisor `i` is collected, never its
      cofactor `n / i`. */
  lemma DivisorListFacts(n: nat)
    requires n >= 1
    ensures var ds := DivisorList(n);
      |ds| >= 2 && ds[0] == 1 && ds[1] == n &&
      (forall j :: 0 <= j < |ds| ==> 1 <= ds[j] <= n && Divides(ds[j], n)) &&
      (forall j :: 2 <= j < |ds| ==> 2 <= ds[j] <= Isqrt(n)) &&
      (forall d :: 2 <= d <= Isqrt(n) && Divides(d, n) ==> d in ds[2..])
  {
    var r := Isqrt(n);
    IsqrtAtMost(n);
    DividesSelf(n);
    var small := DivisorsFrom(n, 2, r);
    var ds := [1, n] + small;
    assert ds[2..] == small;
    forall j | 0 <= j < |ds|
      ensures 1 <= ds[j] <= n && Divides(ds[j], n)
    {
      if j >= 2 {
        assert ds[j] == small[j - 2];
      }
    }
  }

  lemma DivisorListPositive(n: nat)
    requires n >= 1
    ensures forall j :: 0 <= j < |DivisorList(n)| ==> DivisorList(n)[j] >= 1
  {
    DivisorListFacts(n);
  }

  lemma DividesSelf(n: nat)
    requires n >= 1
    ensures Divides(1, n) && Divides(n, n)
  {
    MulDivUnique(n, n / n, n % n, 1);
  }

  lemma MulAtLeast(e: int, k: int)
    requires e >= 0 && k >= 1
    ensures e * k >= e
  {
    assert e * k == e + e * (k - 1);
  }

  /** Division with remainder is unique: `e * q + m == e * d` with `0 <= m < e`
      forces `q == d` and `m == 0`. */
  lemma MulDivUnique(e: int, q: int, m: int, d: int)
    requires e > 0 && 0 <= m < e && e * q + m == e * d
    ensures q == d && m == 0
  {
    assert e * (d - q) == m;
    if d - q >= 1 {
      MulAtLeast(e, d - q);
    } else if q - d >= 1 {
      MulAtLeast(e, q - d);
    }
  }

  /** Splitting `n` by one of its divisors `d` gives a cofactor that divides `n`
      as well, lies in [1, n], and gives `d` back. */
  lemma CofactorDivides(n: nat, d: nat)
    requires n >= 1 && Divides(d, n)
    ensures 1 <= n / d <= n && Divides(n / d, n) && n / (n / d) == d
  {
    var e := n / d;
    assert n == d * e;
    MulAtLeast(e, d);
    assert e * d == n;
    MulDivUnique(e, n / e, n % e, d);
  }

  lemma SquareMonotone(a: nat, b: nat)
    requires a <= b
    ensures a * a <= b * b
  {
    assert a * a <= a * b;
  }

  /** A divisor in [2, Isqrt(n)] is a proper divisor of `n`. */
  lemma SmallDivisorIsProper(n: nat, d: nat)
    requires 2 <= d <= Isqrt(n) && Divides(d, n)
    ensures d < n
  {
    IsqrtIsRoot(n);
    SquareMonotone(d, Isqrt(n));
    MulAtLeast(d, d);
    assert d * d == d + d * (d - 1);
    MulAtLeast(d, d - 1);
  }

  /** The smaller of two factors squares to at most their product. */
  lemma SmallerFactorSquare(d: nat, e: nat) returns (a: nat)
    ensures a == d || a == e
    ensures a <= d && a <= e && a * a <= d * e
  {
    if d <= e {
      a := d;
      assert d * d <= d * e;
    } else {
      a := e;
      assert e * e <= d * e;
    }
  }

  /** A composite `n = d * e` has its smaller factor in [2, Isqrt(n)]. */
  lemma CompositeHasSmallDivisor(n: nat) returns (a: nat)
    requires IsComposite(n)
    ensures 2 <= a <= Isqrt(n) && Divides(a, n)
  {
    var d :| 2 <= d < n && Divides(d, n);
    CofactorDivides(n, d);
    var e := n / d;
    assert n == d * e;
    assert e != 1;
    a := SmallerFactorSquare(d, e);
    AtMostIsqrt(n, a);
  }

  /** The collected list has more than the two trivial entries exactly when the
      candidate is composite. */
  lemma {:induction false} DivisorListDetectsComposite(n: nat)
    requires n >= 1
    ensures |DivisorList(n)| > 2 <==> IsComposite(n)
  {
    var ds := DivisorList(n);
    DivisorListFacts(n);
    if |ds| > 2 {
      SmallDivisorIsProper(n, ds[2]);
      assert 2 <= ds[2] < n && Divides(ds[2], n);
    }
    if IsComposite(n) {
      var a := CompositeHasSmallDivisor(n);
      assert a in ds[2..];
    }
  }

  // ---------------------------------------------------------------------
  // One attempt of each category
  // ---------------------------------------------------------------------

  /** The Proper draw: a numerator from [1,119], then a denominator from
      [numerator + 1, 120]. */
  predicate ProperDrawInRange(draw: Draw)
  {
    1 <= draw.0 <= 119 && draw.0 + 1 <= draw.1 <= 120
  }

  /** One Improper attempt draws a numerator from [2,120] and a denominator
      from [1, numerator - 1]. */
  predicate ImproperDrawInRange(draw: Draw)
  {
    2 <= draw.0 <= 120 && 1 <= draw.1 < draw.0
  }

  /** One Apparent attempt draws a candidate from [1,119] and an index into the
      divisor list collected for it (drawn only when the list is long enough). */
  predicate ApparentDrawInRange(draw: Draw)
  {
    1 <= draw.0 <= 119 && draw.1 < |DivisorList(draw.0)|
  }

  /** An Improper attempt is accepted exactly when the denominator does not
      divide the numerator; an accepted fraction is improper and its
      denominator is at least 2. */
  function ImproperAttempt(draw: Draw): (r: Option<Fraction>)
    requires ImproperDrawInRange(draw)
    ensures r.None? <==> Divides(draw.1, draw.0)
    ensures r.Some? ==> r.value == Fraction(draw.0, draw.1)
    ensures r.Some? ==> IsImproper(r.value) && 2 <= r.value.den < r.value.num <= 120
  {
    if draw.0 % draw.1 != 0 then Some(Fraction(draw.0, draw.1)) else None
  }

  /** One Apparent attempt: the candidate is accepted when its divisor list
      holds more than the two trivial entries, and the denominator is the
      candidate divided by the entry at the drawn index. */
  function ApparentAttempt(draw: Draw): (r: Option<Fraction>)
    requires ApparentDrawInRange(draw)
    ensures r.Some? <==> |DivisorList(draw.0)| > 2
    ensures r.Some? ==> r.value.num == draw.0
  {
    var n := draw.0;
    var divisors := DivisorList(n);
    DivisorListPositive(n);
    if |divisors| > 2 then Some(Fraction(n, n / divisors[draw.1])) else None
  }

  /** An Apparent attempt is accepted exactly when the candidate is composite;
      the accepted denominator is the candidate divided by one of the collected
      divisors, so it divides the candidate and neither part is 0. */
  lemma ApparentAttemptAccepts(draw: Draw)
    requires ApparentDrawInRange(draw)
    ensures ApparentAttempt(draw).Some? <==> IsComposite(draw.0)
    ensures ApparentAttempt(draw).Some? ==>
              var f := ApparentAttempt(draw).value;
              f.num == draw.0 &&
              (exists j :: 0 <= j < |DivisorList(draw.0)| && f.den == draw.0 / DivisorList(draw.0)[j]) &&
              IsApparent(f) && 1 <= f.den <= f.num <= 119
  {
    var n := draw.0;
    var divisors := DivisorList(n);
    DivisorListFacts(n);
    DivisorListDetectsComposite(n);
    if |divisors| > 2 {
      CofactorDivides(n, divisors[draw.1]);
    }
  }

  // ---------------------------------------------------------------------
  // Rejection sampling over a finite sequence of attempts
  // ---------------------------------------------------------------------

  predicate ImproperDrawsInRange(draws: seq<Draw>)
  {
    forall j :: 0 <= j < |draws| ==> ImproperDrawInRange(draws[j])
  }

  predicate ApparentDrawsInRange(draws: seq<Draw>)
  {
    forall j :: 0 <= j < |draws| ==> ApparentDrawInRange(draws[j])
  }

  function ImproperAttempts(draws: seq<Draw>): seq<Option<Fraction>>
    requires ImproperDrawsInRange(draws)
  {
    seq(|draws|, j requires 0 <= j < |draws| => ImproperAttempt(draws[j]))
  }

  function ApparentAttempts(draws: seq<Draw>): seq<Option<Fraction>>
    requires ApparentDrawsInRange(draws)
  {
    seq(|draws|, j requires 0 <= j < |draws| => ApparentAttempt(draws[j]))
  }

  /** The outcome of the first accepted attempt, if any. */
  function FirstSome<T>(attempts: seq<Option<T>>): Option<T>
  {
    if attempts == [] then None
    else if attempts[0].Some? then attempts[0]
    else FirstSome(attempts[1..])
  }

  /** `FirstSome` fails exactly when every attempt fails, and otherwise returns
      the outcome of an accepted attempt all of whose predecessors failed. */
  lemma {:induction false} FirstSomeIsFirst<T>(attempts: seq<Option<T>>)
    ensures FirstSome(attempts).None? <==> forall j :: 0 <= j < |attempts| ==> attempts[j].None?
    ensures FirstSome(attempts).Some? ==>
              exists j :: 0 <= j < |attempts| && attempts[j] == FirstSome(attempts) &&
                          forall i :: 0 <= i < j ==> attempts[i].None?
  {
    if attempts != [] && attempts[0].None? {
      var rest := attempts[1..];
      FirstSomeIsFirst(rest);
      if FirstSome(rest).Some? {
        var j :| 0 <= j < |rest| && rest[j] == FirstSome(rest) &&
                 forall i :: 0 <= i < j ==> rest[i].None?;
        assert attempts[j + 1] == FirstSome(attempts);
        assert forall i :: 0 <= i < j + 1 ==> attempts[i].None? by {
          forall i | 0 <= i < j + 1 ensures attempts[i].None? {
            if i > 0 { assert attempts[i] == rest[i - 1]; }
          }
        }
      } else {
        forall j | 0 <= j < |attempts| ensures attempts[j].None? {
          if j > 0 { assert attempts[j] == rest[j - 1]; }
        }
      }
    }
  }

  /** Unfolds `FirstSome` at position `k`. */
  lemma FirstSomeAt<T>(attempts: seq<Option<T>>, k: nat)
    requires k < |attempts|
    ensures FirstSome(attempts[k..]) ==
              if attempts[k].Some? then attempts[k] else FirstSome(attempts[k + 1..])
  {
    assert attempts[k..][0] == attempts[k];
    assert attempts[k..][1..] == attempts[k + 1..];
  }

  /** The collection loop of the Apparent branch: 1 and `n` first, then every
      `i` from 2 up to the integer square root of `n` that divides `n`. */
  method CollectDivisors(n: nat) returns (divisors: seq<nat>)
    requires n >= 1
    ensures divisors == DivisorList(n)
  {
    divisors := [1, n];
    var root := Isqrt(n);
    IsqrtAtMost(n);
    ghost var all := [1, n] + DivisorsFrom(n, 2, root);
    assert all == DivisorList(n);
    for i := 2 to root + 1
      invariant divisors + DivisorsFrom(n, i, root) == all
    {
      ghost var rest := DivisorsFrom(n, i + 1, root);
      if n % i == 0 {
        assert DivisorsFrom(n, i, root) == [i] + rest;
        assert divisors + [i] + rest == divisors + ([i] + rest);
        divisors := divisors + [i];
      } else {
        assert DivisorsFrom(n, i, root) == rest;
      }
    }
    assert DivisorsFrom(n, root + 1, root) == [];
    assert divisors + [] == divisors;
  }

  /** The Improper rejection loop. It draws attempts in order until one is
      accepted; `count` is the number of attempts made. When the draws run out
      first, no fraction is found. */
  method DrawImproper(draws: seq<Draw>) returns (f: Option<Fraction>, count: nat)
    requires ImproperDrawsInRange(draws)
    ensures f == FirstSome(ImproperAttempts(draws))
    ensures count <= |draws|
    ensures f.Some? ==> 1 <= count && f == ImproperAttempt(draws[count - 1]) &&
                        forall j :: 0 <= j < count - 1 ==> ImproperAttempt(draws[j]).None?
    ensures f.None? ==> count == |draws| &&
                        forall j :: 0 <= j < |draws| ==> ImproperAttempt(draws[j]).None?
  {
    ghost var attempts := ImproperAttempts(draws);
    var found := false;
    var num: nat, den: nat := 0, 0;
    count := 0;
    while !found && count < |draws|
      invariant count <= |draws|
      invariant found ==> 1 <= count && ImproperAttempt(draws[count - 1]) == Some(Fraction(num, den))
      invariant forall j :: 0 <= j < (if found then count - 1 else count) ==> ImproperAttempt(draws[j]).None?
      invariant FirstSome(attempts) == if found then Some(Fraction(num, den)) else FirstSome(attempts[count..])
    {
      FirstSomeAt(attempts, count);
      num, den := draws[count].0, draws[count].1;
      if num % den != 0 {
        found := true;
      }
      count := count + 1;
    }
    f := if found then Some(Fraction(num, den)) else None;
    if !found {
      assert attempts[count..] == [];
    }
  }

  /** The Apparent rejection loop. Each attempt collects the divisor list of its
      candidate; a list longer than two accepts the candidate, and the
      denominator is the candidate divided by the list entry at the drawn index. */
  method DrawApparent(draws: seq<Draw>) returns (f: Option<Fraction>, count: nat)
    requires ApparentDrawsInRange(draws)
    ensures f == FirstSome(ApparentAttempts(draws))
    ensures count <= |draws|
    ensures f.Some? ==> 1 <= count && f == ApparentAttempt(draws[count - 1]) &&
                        forall j :: 0 <= j < count - 1 ==> ApparentAttempt(draws[j]).None?
    ensures f.None? ==> count == |draws| &&
                        forall j :: 0 <= j < |draws| ==> ApparentAttempt(draws[j]).None?
  {
    ghost var attempts := ApparentAttempts(draws);
    var found := false;
    var num: nat, den: nat := 0, 0;
    count := 0;
    while !found && count < |draws|
      invariant count <= |draws|
      invariant found ==> 1 <= count && attempts[count - 1] == Some(Fraction(num, den))
      invariant forall j :: 0 <= j < (if found then count - 1 else count) ==> attempts[j].None?
      invariant FirstSome(attempts) == if found then Some(Fraction(num, den)) else FirstSome(attempts[count..])
    {
      FirstSomeAt(attempts, count);
      num := draws[count].0;
      var divisors := CollectDivisors(num);
      DivisorListPositive(num);
      assert attempts[count] == ApparentAttempt(draws[count]);
      if |divisors| > 2 {
        den := num / divisors[draws[count].1];
        found := true;
      }
      count := count + 1;
    }
    f := if found then Some(Fraction(num, den)) else None;
    if !found {
      assert attempts[count..] == [];
    }
    forall j | 0 <= j < |draws| && attempts[j].None?
      ensures ApparentAttempt(draws[j]).None?
    {
      assert attempts[j] == ApparentAttempt(draws[j]);
    }
    if found {
      assert attempts[count - 1] == ApparentAttempt(draws[count - 1]);
    }
  }

  // ---------------------------------------------------------------------
  // The whole generator
  // ---------------------------------------------------------------------

  /** All draws one call of the generator may consume: the category index, the
      Proper draw, and the candidate sequences of the two rejection loops. */
  datatype Randomness = Randomness(kind: nat, proper: Draw, improper: seq<Draw>, apparent: seq<Draw>)

  /** Every draw lies in its range, and the loop of the drawn category accepts
      one of its attempts (the loop terminates only then). */
  predicate WellFormed(rnd: Randomness)
  {
    rnd.kind <= 2 &&
    ProperDrawInRange(rnd.proper) &&
    ImproperDrawsInRange(rnd.improper) &&
    ApparentDrawsInRange(rnd.apparent) &&
    (SampleFtype(rnd.kind) == Ftype.Improper ==> FirstSome(ImproperAttempts(rnd.improper)).Some?) &&
    (SampleFtype(rnd.kind) == Ftype.Apparent ==> FirstSome(ApparentAttempts(rnd.apparent)).Some?)
  }

  /** The exercise the generator produces: its category is the drawn one, both
      parts lie in [1,120], the fraction belongs to that category and to no
      other, and each category keeps the bounds of its own draw. */
  function Generate(rnd: Randomness): (e: Exercise)
    requires WellFormed(rnd)
    ensures e.fracType == SampleFtype(rnd.kind)
    ensures WellClassified(e)
    ensures e.fracType == Ftype.Proper ==>
              1 <= e.fraction.num < e.fraction.den <= 120
    ensures e.fracType == Ftype.Improper ==>
              2 <= e.fraction.den < e.fraction.num <= 120 && !Divides(e.fraction.den, e.fraction.num)
    ensures e.fracType == Ftype.Apparent ==>
              IsComposite(e.fraction.num) && Divides(e.fraction.den, e.fraction.num) &&
              1 <= e.fraction.den <= e.fraction.num <= 119
  {
    match SampleFtype(rnd.kind)
    case Proper =>
      Exercise(Ftype.Proper, Fraction(rnd.proper.0, rnd.proper.1))
    case Improper =>
      var attempts := ImproperAttempts(rnd.improper);
      FirstSomeIsFirst(attempts);
      Exercise(Ftype.Improper, FirstSome(attempts).value)
    case Apparent =>
      var attempts := ApparentAttempts(rnd.apparent);
      FirstSomeIsFirst(attempts);
      var j :| 0 <= j < |attempts| && attempts[j] == FirstSome(attempts);
      ApparentAttemptAccepts(rnd.apparent[j]);
      Exercise(Ftype.Apparent, FirstSome(attempts).value)
  }

  /** The denominator an Apparent attempt produces for candidate `n` at each
      index of its divisor list. */
  function ApparentDenominators(n: nat): seq<nat>
    requires n >= 1
  {
    DivisorListPositive(n);
    Quotients(n, DivisorList(n))
  }

  /** `n` divided by each entry of `ds`. */
  function Quotients(n: nat, ds: seq<nat>): seq<nat>
    requires forall j :: 0 <= j < |ds| ==> ds[j] >= 1
  {
    seq(|ds|, j requires 0 <= j < |ds| => n / ds[j])
  }

  /** For the candidate 12 the collected list is 1, 12, 2, 3, so the
      denominators 12, 1, 6 and 4 can be produced, and 3 and 2 cannot, although
      both divide 12. */
  lemma ApparentDenominatorsOfTwelve()
    ensures ApparentDenominators(12) == [12, 1, 6, 4]
  {
    DivisorListOfTwelve();
  }

  lemma DivisorListOfTwelve()
    ensures DivisorList(12) == [1, 12, 2, 3]
  {
    var n: nat := 12;
    var r := Isqrt(n);
    IsqrtIsRoot(n);
    AtMostIsqrt(n, 3);
    if r >= 4 {
      SquareMonotone(4, r);
    }
    assert DivisorsFrom(n, 4, 3) == [];
    assert DivisorsFrom(n, 3, 3) == [3];
    assert DivisorsFrom(n, 2, 3) == [2, 3];
  }
}
