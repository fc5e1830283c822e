/** Discounted prices computed with `map` and a lambda over a list of product dicts,
    and the parser that reads "Name:Price, Name:Price" text into such dicts. */
module Discounts {
  import opened Wrappers
  import opened Seqs
  import opened Text
  import opened PyValues
  import opened Grades

  /** A product the discount accepts: a dict with a "precio" key whose value is an int
      or a float (a bool counts as an int, as in Python). */
  predicate IsPricedProduct(v: Value)
  {
    v.DictV? && Lookup(v.entries, StrV("precio")).Some? && IsNumber(Lookup(v.entries, StrV("precio")).value)
  }

  /** `float(p["precio"])` of an accepted product. */
  function PriceOf(v: Value): real
    requires IsPricedProduct(v)
  {
    NumberValue(Lookup(v.entries, StrV("precio")).value)
  }

  /** `lambda p: round(float(p["precio"]) * factor, 2)`. */
  function DiscountedPrice(factor: real, round2: real -> real): Value -> real
  {
    p => if IsPricedProduct(p) then round2(PriceOf(p) * factor) else 0.0
  }

  /** `extraer_precios_con_descuento(productos, descuento)`: ValueError for a discount
      outside [0, 1], checked first; TypeError when the products are not a list or one
      of them is not a dict with a numeric "precio", all checked before any price is
      computed; otherwise one price per product, in order, each that product's price
      times (1 - descuento), rounded to two decimals. */
  function PriceDiscount(products: Value, discount: real, round2: real -> real): (r: Result<seq<real>, ExceptionKind>)
    ensures r == Err(ValueError) <==> !(0.0 <= discount <= 1.0)
    ensures r == Err(TypeError) <==>
              0.0 <= discount <= 1.0 &&
              (!products.ListV? || exists i :: 0 <= i < |products.items| && !IsPricedProduct(products.items[i]))
    ensures r.Ok? ==> |r.value| == |products.items|
    ensures r.Ok? ==> forall i :: 0 <= i < |r.value| ==>
              IsPricedProduct(products.items[i]) && r.value[i] == round2(PriceOf(products.items[i]) * (1.0 - discount))
  {
    if !(0.0 <= discount <= 1.0) then Err(ValueError)
    else if !products.ListV? then Err(TypeError)
    else if exists i :: 0 <= i < |products.items| && !IsPricedProduct(products.items[i]) then Err(TypeError)
    else
      DiscountedAll(products.items, 1.0 - discount, round2);
      Ok(Map(products.items, DiscountedPrice(1.0 - discount, round2)))
  }

  /** On accepted products the lambda computes each product's rounded price times the
      factor. */
  lemma DiscountedAll(items: seq<Value>, factor: real, round2: real -> real)
    requires forall i :: 0 <= i < |items| ==> IsPricedProduct(items[i])
    ensures forall i :: 0 <= i < |items| ==>
              Map(items, DiscountedPrice(factor, round2))[i] == round2(PriceOf(items[i]) * factor)
  {
    forall i | 0 <= i < |items|
      ensures Map(items, DiscountedPrice(factor, round2))[i] == round2(PriceOf(items[i]) * factor)
    {
      assert DiscountedPrice(factor, round2)(items[i]) == round2(PriceOf(items[i]) * factor);
    }
  }

  /** A larger discount never gives a larger price, for products with non-negative
      prices and a rounding that keeps order. */
  lemma DiscountMonotone(products: Value, d1: real, d2: real, round2: real -> real, i: nat)
    requires IsMonotone(round2)
    requires 0.0 <= d1 <= d2 <= 1.0
    requires PriceDiscount(products, d1, round2).Ok?
    requires i < |products.items|
    requires PriceOf(products.items[i]) >= 0.0
    ensures PriceDiscount(products, d2, round2).Ok?
    ensures PriceDiscount(products, d2, round2).value[i] <= PriceDiscount(products, d1, round2).value[i]
  {
    var p := PriceOf(products.items[i]);
    assert p * (1.0 - d2) <= p * (1.0 - d1);
  }

  /** The whole discount leaves every price at 0.0; none leaves every two-decimal
      price as it was. */
  lemma DiscountExtremes(products: Value, round2: real -> real, i: nat)
    requires KeepsCents(round2)
    requires PriceDiscount(products, 0.0, round2).Ok?
    requires i < |products.items|
    ensures PriceDiscount(products, 1.0, round2).value[i] == 0.0
    ensures forall n: int :: PriceOf(products.items[i]) == Cents(n) ==>
              PriceDiscount(products, 0.0, round2).value[i] == PriceOf(products.items[i])
  {
    assert round2(Cents(0)) == Cents(0);
  }

  /** The first example of the tests: 10% off 50000, 80000, 120000 and 9000. */
  lemma TenPercentExample(round2: real -> real)
    requires KeepsCents(round2)
    ensures var products := ListV([Product("Camisa", IntV(50000)), Product("Pantalón", IntV(80000)),
                                   Product("Zapatos", IntV(120000)), Product("Medias", IntV(9000))]);
            PriceDiscount(products, 0.10, round2) == Ok([45000.0, 72000.0, 108000.0, 8100.0])
  {
    var items := [Product("Camisa", IntV(50000)), Product("Pantalón", IntV(80000)),
                  Product("Zapatos", IntV(120000)), Product("Medias", IntV(9000))];
    ProductPrice("Camisa", IntV(50000));
    ProductPrice("Pantalón", IntV(80000));
    ProductPrice("Zapatos", IntV(120000));
    ProductPrice("Medias", IntV(9000));
    assert PriceOf(items[0]) * (1.0 - 0.10) == Cents(4500000) == 45000.0;
    assert PriceOf(items[1]) * (1.0 - 0.10) == Cents(7200000) == 72000.0;
    assert PriceOf(items[2]) * (1.0 - 0.10) == Cents(10800000) == 108000.0;
    assert PriceOf(items[3]) * (1.0 - 0.10) == Cents(810000) == 8100.0;
    assert forall i :: 0 <= i < |items| ==> IsPricedProduct(items[i]);
    var r := PriceDiscount(ListV(items), 0.10, round2);
    assert r.Ok?;
    assert r.value[0] == round2(Cents(4500000));
    assert r.value[1] == round2(Cents(7200000));
    assert r.value[2] == round2(Cents(10800000));
    assert r.value[3] == round2(Cents(810000));
    assert round2(Cents(4500000)) == 45000.0 && round2(Cents(7200000)) == 72000.0;
    assert round2(Cents(10800000)) == 108000.0 && round2(Cents(810000)) == 8100.0;
    FourElements(r.value, 45000.0, 72000.0, 108000.0, 8100.0);
  }

  lemma FourElements<T>(s: seq<T>, a: T, b: T, c: T, d: T)
    requires |s| == 4 && s[0] == a && s[1] == b && s[2] == c && s[3] == d
    ensures s == [a, b, c, d]
  {
  }

  /** The invalid inputs of the tests: a negative discount, a str instead of a list, a
      dict without "precio", and a str price. */
  lemma InvalidExamples(round2: real -> real)
    ensures PriceDiscount(ListV([]), -0.1, round2) == Err(ValueError)
    ensures PriceDiscount(StrV("no lista"), 0.1, round2) == Err(TypeError)
    ensures PriceDiscount(ListV([DictV([(StrV("nombre"), StrV("X"))])]), 0.1, round2) == Err(TypeError)
    ensures PriceDiscount(ListV([DictV([(StrV("precio"), StrV("xx"))])]), 0.1, round2) == Err(TypeError)
  {
    var noPrice := DictV([(StrV("nombre"), StrV("X"))]);
    assert Lookup(noPrice.entries, StrV("precio")) == None by {
      assert noPrice.entries[1..] == [];
    }
    assert !IsPricedProduct([noPrice][0]);
    var strPrice := DictV([(StrV("precio"), StrV("xx"))]);
    assert !IsPricedProduct([strPrice][0]);
  }

  // ---------------------------------------------------------------------------
  // _parse_productos
  // ---------------------------------------------------------------------------

  /** `{"nombre": nombre, "precio": precio}` */
  function Product(name: string, price: Value): Value
  {
    DictV([(StrV("nombre"), StrV(name)), (StrV("precio"), price)])
  }

  /** A parsed (name, price) pair as a product dict. */
  function ProductOf(p: (string, real)): Value
  {
    Product(p.0, FloatV(p.1))
  }

  /** A product dict reads back its price. */
  lemma ProductPrice(name: string, price: Value)
    ensures Lookup(Product(name, price).entries, StrV("precio")) == Some(price)
  {
    assert Product(name, price).entries[1..] == [(StrV("precio"), price)];
  }

  /** One piece more adds its product when the piece parses. */
  lemma ProductsSnoc(pieces: seq<string>, piece: string, conv: Conversions)
    ensures Map(KeepOk(pieces + [piece], PairOf(conv)), ProductOf)
            == Map(KeepOk(pieces, PairOf(conv)), ProductOf)
               + (if PairOf(conv)(piece).Ok? then [ProductOf(PairOf(conv)(piece).value)] else [])
  {
    KeepOkSnoc(pieces, piece, PairOf(conv));
    var extra := if PairOf(conv)(piece).Ok? then [PairOf(conv)(piece).value] else [];
    MapAppend(KeepOk(pieces, PairOf(conv)), extra, ProductOf);
  }

  /** `_parse_productos(texto)`: one dict per non-blank ','-separated piece that has a
      ':' and a price `float()` accepts, in order; the rest are skipped silently. */
  method ParseProducts(text: string, conv: Conversions) returns (products: seq<Value>)
    ensures products == Map(NamedPairs(text, conv), ProductOf)
  {
    if Strip(text) == [] {
      return [];
    }
    products := [];
    var pieces := Filter(Split(text, ','), HasText);
    var i := 0;
    while i < |pieces|
      invariant 0 <= i <= |pieces|
      invariant products == Map(KeepOk(pieces[..i], PairOf(conv)), ProductOf)
    {
      var piece := pieces[i];
      TakeSnoc(pieces, i);
      ProductsSnoc(pieces[..i], piece, conv);
      if ':' in piece {
        var (nameText, priceText) := SplitOnce(piece, ':');
        var name := Strip(nameText);
        var price := conv.parseFloat(Replace(Strip(priceText), ',', '.'));
        if price.Some? {
          assert PairOf(conv)(piece) == Ok((if name == [] then NoName else name, price.value));
          products := products + [Product(if name == [] then NoName else name, FloatV(price.value))];
        } else {
          assert PairOf(conv)(piece).Err?;
        }
      } else {
        assert PairOf(conv)(piece).Err?;
      }
      i := i + 1;
    }
    assert pieces[..i] == pieces;
  }

  /** Every parsed product is a dict with a float "precio" holding the parsed price. */
  lemma ParsedProductsArePriced(pairs: seq<(string, real)>)
    ensures forall i :: 0 <= i < |pairs| ==>
              IsPricedProduct(Map(pairs, ProductOf)[i]) && PriceOf(Map(pairs, ProductOf)[i]) == pairs[i].1
  {
    forall i | 0 <= i < |pairs|
      ensures IsPricedProduct(Map(pairs, ProductOf)[i]) && PriceOf(Map(pairs, ProductOf)[i]) == pairs[i].1
    {
      ProductPrice(pairs[i].0, FloatV(pairs[i].1));
    }
  }

  /** What the menu does with parsed text: products built from any parsed pairs always
      pass the type checks, so only the discount range can fail, and each price is the
      parsed one discounted. */
  lemma ParsedProductsDiscount(pairs: seq<(string, real)>, discount: real, round2: real -> real)
    ensures var r := PriceDiscount(ListV(Map(pairs, ProductOf)), discount, round2);
            (r.Ok? <==> 0.0 <= discount <= 1.0) &&
            (r.Ok? ==> forall i :: 0 <= i < |pairs| ==> r.value[i] == round2(pairs[i].1 * (1.0 - discount)))
  {
    var products := Map(pairs, ProductOf);
    ParsedProductsArePriced(pairs);
    var r := PriceDiscount(ListV(products), discount, round2);
    if 0.0 <= discount <= 1.0 {
      assert r.Ok?;
      forall i | 0 <= i < |pairs| ensures r.value[i] == round2(pairs[i].1 * (1.0 - discount)) {
        assert IsPricedProduct(products[i]) && PriceOf(products[i]) == pairs[i].1;
        assert r.value[i] == round2(PriceOf(products[i]) * (1.0 - discount));
        assert PriceOf(products[i]) * (1.0 - discount) == pairs[i].1 * (1.0 - discount);
        assert r.value[i] == round2(pairs[i].1 * (1.0 - discount));
      }
    }
  }
}
