/** The three fraction categories of the drill, the user's answers, and the
    arithmetic that tells the categories apart. */
module Categories {

  /** The true category of the fraction on screen. */
  datatype Ftype = Proper | Improper | Apparent

  /** The user's pending answer; `Unselected` means that no answer is chosen. */
  datatype Choice = Proper | Improper | Apparent | Unselected

  datatype Option<T> = None | Some(value: T)

  /** A numerator over a denominator, as shown on screen. */
  datatype Fraction = Fraction(num: nat, den: nat)

  /** A generated exercise: a fraction together with the category it was drawn for. */
  datatype Exercise = Exercise(fracType: Ftype, fraction: Fraction)

  predicate Divides(d: nat, n: nat)
  {
    d > 0 && n % d == 0
  }

  /** `n` has a divisor strictly between 1 and itself. */
  predicate IsComposite(n: nat)
  {
    exists d :: 2 <= d < n && Divides(d, n)
  }

  predicate IsProper(f: Fraction)
  {
    f.num < f.den
  }

  predicate IsImproper(f: Fraction)
  {
    f.num > f.den && !Divides(f.den, f.num)
  }

  predicate IsApparent(f: Fraction)
  {
    Divides(f.den, f.num)
  }

  /** The category a fraction with positive parts belongs to. On such fractions
      the three defining predicates are mutually exclusive and exhaustive: exactly
      one of them holds, and it is the one `Classify` returns. */
  function Classify(f: Fraction): (t: Ftype)
    requires f.num >= 1 && f.den >= 1
    ensures t == Ftype.Proper <==> IsProper(f)
    ensures t == Ftype.Improper <==> IsImproper(f)
    ensures t == Ftype.Apparent <==> IsApparent(f)
  {
    if f.num < f.den then
      assert f.num % f.den == f.num;
      Ftype.Proper
    else if f.num % f.den == 0 then Ftype.Apparent
    else Ftype.Improper
  }

  /** Both parts of the fraction lie in [1,120] and the fraction belongs to the
      category it is labelled with. */
  predicate WellClassified(e: Exercise)
  {
    1 <= e.fraction.num <= 120 && 1 <= e.fraction.den <= 120 &&
    Classify(e.fraction) == e.fracType
  }

  /** The answer names the category. `Unselected` matches nothing. */
  predicate Matches(c: Choice, t: Ftype)
  {
    (c == Choice.Proper && t == Ftype.Proper) ||
    (c == Choice.Improper && t == Ftype.Improper) ||
    (c == Choice.Apparent && t == Ftype.Apparent)
  }

  /** The category picked by a uniform draw `index` from [0,2]: 0 is Proper,
      1 is Improper, and every other index falls to Apparent. */
  function SampleFtype(index: nat): (t: Ftype)
    ensures t == Ftype.Proper <==> index == 0
    ensures t == Ftype.Improper <==> index == 1
    ensures t == Ftype.Apparent <==> index >= 2
  {
    match index
    case 0 => Ftype.Proper
    case 1 => Ftype.Improper
    case _ => Ftype.Apparent
  }

  /** Every category is reached by some index of the draw range [0,2]. */
  lemma SampleCoversEveryCategory(t: Ftype)
    ensures exists index :: 0 <= index <= 2 && SampleFtype(index) == t
  {
    match t
    case Proper => assert SampleFtype(0) == t;
    case Improper => assert SampleFtype(1) == t;
    case Apparent => assert SampleFtype(2) == t;
  }
}
