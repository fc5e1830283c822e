/** The body-mass-index calculator: the index from weight and height, and its
    simplified WHO category. The two copies of the exercise have the same logic. */
module Bmi {
  import opened Wrappers
  import opened PyValues

  /** `IMC_BAJO_PESO_MAX`, `IMC_NORMAL_MAX`, `IMC_SOBREPESO_MAX`. */
  const UnderweightMax: real := 18.5
  const NormalMax: real := 25.0
  const OverweightMax: real := 30.0

  datatype Category = Underweight | Normal | Overweight | Obese

  /** The text `interpretar_imc` returns for each category. */
  function Label(c: Category): string
  {
    match c
    case Underweight => "Bajo peso"
    case Normal => "Normal"
    case Overweight => "Sobrepeso"
    case Obese => "Obesidad"
  }

  /** Position of a category on the scale, lightest first. */
  function Rank(c: Category): nat
  {
    match c
    case Underweight => 0
    case Normal => 1
    case Overweight => 2
    case Obese => 3
  }

  /** `calcular_imc(peso, altura)`: ValueError for a weight of 0 or less, checked
      first, or a height of 0 or less; otherwise weight / height², rounded to two
      decimals. */
  function Compute(weight: real, height: real, round2: real -> real): (r: Result<real, ExceptionKind>)
    ensures r.Err? <==> weight <= 0.0 || height <= 0.0
    ensures r.Err? ==> r.error == ValueError
    ensures r.Ok? ==> r.value == round2(weight / (height * height))
  {
    if weight <= 0.0 then Err(ValueError)
    else if height <= 0.0 then Err(ValueError)
    else Ok(round2(weight / (height * height)))
  }

  /** `interpretar_imc(imc)`: ValueError for an index of 0 or less; otherwise the one
      category whose half-open range holds the index: below 18.5, [18.5, 25),
      [25, 30), 30 and above. */
  function Interpret(imc: real): (r: Result<Category, ExceptionKind>)
    ensures r.Err? <==> imc <= 0.0
    ensures r.Err? ==> r.error == ValueError
    ensures r.Ok? ==> (r.value == Underweight <==> imc < UnderweightMax)
    ensures r.Ok? ==> (r.value == Normal <==> UnderweightMax <= imc < NormalMax)
    ensures r.Ok? ==> (r.value == Overweight <==> NormalMax <= imc < OverweightMax)
    ensures r.Ok? ==> (r.value == Obese <==> OverweightMax <= imc)
  {
    if imc <= 0.0 then Err(ValueError)
    else if imc < UnderweightMax then Ok(Underweight)
    else if imc < NormalMax then Ok(Normal)
    else if imc < OverweightMax then Ok(Overweight)
    else Ok(Obese)
  }

  /** The labels tell the categories apart. */
  lemma LabelsDistinct(c: Category, d: Category)
    ensures Label(c) == Label(d) <==> c == d
  {
    if c != d {
      assert Label(c)[0] != Label(d)[0] || |Label(c)| != |Label(d)|;
    }
  }

  /** A larger index never gives a lighter category. */
  lemma InterpretMonotone(a: real, b: real)
    requires 0.0 < a <= b
    ensures Rank(Interpret(a).value) <= Rank(Interpret(b).value)
  {
  }

  /** Calculation then interpretation: valid measurements whose exact index is at
      least 0.01 always get a category, for a rounding that keeps order and leaves
      two-decimal amounts alone. Below that the rounded index may be 0.0, which the
      interpretation rejects. */
  lemma ComputeThenInterpret(weight: real, height: real, round2: real -> real)
    requires IsMonotone(round2) && KeepsCents(round2)
    requires weight > 0.0 && height > 0.0
    requires weight / (height * height) >= 0.01
    ensures Compute(weight, height, round2).Ok?
    ensures Interpret(Compute(weight, height, round2).value).Ok?
  {
    assert round2(Cents(1)) == 0.01;
  }

  /** The boundary cases of the tests. */
  lemma InterpretExamples()
    ensures Interpret(18.49) == Ok(Underweight) && Interpret(18.499) == Ok(Underweight)
    ensures Interpret(18.5) == Ok(Normal) && Interpret(18.501) == Ok(Normal)
    ensures Interpret(24.99) == Ok(Normal) && Interpret(24.999) == Ok(Normal)
    ensures Interpret(25.0) == Ok(Overweight) && Interpret(25.001) == Ok(Overweight)
    ensures Interpret(29.99) == Ok(Overweight) && Interpret(29.999) == Ok(Overweight)
    ensures Interpret(30.0) == Ok(Obese) && Interpret(30.001) == Ok(Obese) && Interpret(35.0) == Ok(Obese)
    ensures Interpret(0.0) == Err(ValueError) && Interpret(-0.000001) == Err(ValueError)
    ensures Interpret(-10.0) == Err(ValueError)
  {
  }

  /** The exact cases of the tests, 120 kg at 2.00 m and 500 kg at 2.50 m, and the
      invalid measurements. */
  lemma ComputeExamples(round2: real -> real)
    requires KeepsCents(round2)
    ensures Compute(120.0, 2.0, round2) == Ok(30.0)
    ensures Compute(500.0, 2.5, round2) == Ok(80.0)
    ensures Compute(0.0, 1.75, round2) == Err(ValueError) && Compute(-50.0, 1.75, round2) == Err(ValueError)
    ensures Compute(70.0, 0.0, round2) == Err(ValueError) && Compute(70.0, -1.8, round2) == Err(ValueError)
  {
    assert 120.0 / (2.0 * 2.0) == Cents(3000);
    assert 500.0 / (2.5 * 2.5) == Cents(8000);
  }
}
