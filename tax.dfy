/** The VAT calculator: a module-level rate that a validated setter changes and that
    every later calculation reads. */
module Tax {
  import opened Wrappers
  import opened PyValues

  /** The initial `TASA_IVA`: 19%. */
  const DefaultRate: real := 0.19

  /** The module's global state: `TASA_IVA`. */
  class Calculator {
    var rate: real

    /** The rate is always a fraction in [0, 1]. */
    predicate Valid()
      reads this
    {
      0.0 <= rate <= 1.0
    }

    /** Importing the module: the rate starts at 0.19. */
    constructor ()
      ensures Valid()
      ensures rate == DefaultRate
    {
      rate := DefaultRate;
    }

    /** `calcular_iva(precio_base)`: ValueError for a negative base; otherwise the base
        times the current rate, rounded to two decimals. The rate is only read. */
    method Compute(base: real, round2: real -> real) returns (r: Result<real, ExceptionKind>)
      ensures r.Err? <==> base < 0.0
      ensures r.Err? ==> r.error == ValueError
      ensures r.Ok? ==> r.value == round2(base * rate)
      ensures r.Ok? && Valid() && IsMonotone(round2) && KeepsCents(round2) ==>
                0.0 <= r.value <= round2(base)
    {
      if base < 0.0 {
        return Err(ValueError);
      }
      var tax := base * rate;
      if Valid() && IsMonotone(round2) && KeepsCents(round2) {
        assert 0.0 <= tax;
        assert base - tax == base * (1.0 - rate);
        assert 0.0 <= base * (1.0 - rate);
        assert round2(Cents(0)) == 0.0;
      }
      r := Ok(round2(tax));
    }

    /** `actualizar_tasa_iva(nueva_tasa)`: ValueError for a rate outside [0, 1], which
        leaves the rate as it was; otherwise the rate becomes exactly the new one. */
    method Update(newRate: real) returns (r: Outcome<ExceptionKind>)
      requires Valid()
      modifies this
      ensures Valid()
      ensures r == Fail(ValueError) <==> !(0.0 <= newRate <= 1.0)
      ensures r.Done? <==> 0.0 <= newRate <= 1.0
      ensures rate == (if r.Done? then newRate else old(rate))
    {
      if !(0.0 <= newRate <= 1.0) {
        return Fail(ValueError);
      }
      rate := newRate;
      r := Done;
    }
  }

  /** The tests' scenarios in order: 19.0 on 100.0 by default, 20.0 after moving the
      rate to 0.2, then 25.0 and 52.5 on 250.0 at 0.1 and 0.21, with any rounding that
      leaves two-decimal amounts alone. */
  method RateChanges(round2: real -> real) returns (taxes: seq<real>)
    requires KeepsCents(round2)
    ensures taxes == [19.0, 20.0, 25.0, 52.5]
  {
    assert round2(Cents(1900)) == Cents(1900);
    assert round2(Cents(2000)) == Cents(2000);
    assert round2(Cents(2500)) == Cents(2500);
    assert round2(Cents(5250)) == Cents(5250);
    var vat := new Calculator();
    var a := vat.Compute(100.0, round2);
    var u1 := vat.Update(0.2);
    var b := vat.Compute(100.0, round2);
    var u2 := vat.Update(0.1);
    var c := vat.Compute(250.0, round2);
    var u3 := vat.Update(0.21);
    var d := vat.Compute(250.0, round2);
    taxes := [a.value, b.value, c.value, d.value];
  }

  /** The tests' invalid inputs: a negative base raises ValueError, and so do the rates
      -0.1 and 1.5, after which the rate is still 0.19. */
  method RejectedInputs(round2: real -> real) returns (errors: seq<Result<real, ExceptionKind>>, outcomes: seq<Outcome<ExceptionKind>>, rate: real)
    ensures errors == [Err(ValueError)]
    ensures outcomes == [Fail(ValueError), Fail(ValueError)]
    ensures rate == DefaultRate
  {
    var vat := new Calculator();
    var e := vat.Compute(-1.0, round2);
    var o1 := vat.Update(-0.1);
    var o2 := vat.Update(1.5);
    errors, outcomes, rate := [e], [o1, o2], vat.rate;
  }
}
