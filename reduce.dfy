/** Sums and concatenations written with `functools.reduce` and a lambda, over Python
    values that are checked first. */
module Reduce {
  import opened Wrappers
  import opened Seqs
  import opened Text
  import opened PyValues

  /** `reduce(f, xs, acc)`: the elements folded into the accumulator from left to
      right. */
  function FoldLeft<T, A>(xs: seq<T>, acc: A, f: (A, T) -> A): A
  {
    if xs == [] then acc else FoldLeft(xs[1..], f(acc, xs[0]), f)
  }

  predicate AllNumbers(items: seq<Value>)
  {
    forall i :: 0 <= i < |items| ==> IsNumber(items[i])
  }

  predicate AllStrings(items: seq<Value>)
  {
    forall i :: 0 <= i < |items| ==> items[i].StrV?
  }

  /** The arithmetic sum of the numbers, first element first: the reference the fold
      is compared with. */
  function SumOf(items: seq<Value>): real
    requires AllNumbers(items)
  {
    if items == [] then 0.0 else NumberValue(items[0]) + SumOf(items[1..])
  }

  /** The texts of a list of strings. */
  function Texts(items: seq<Value>): (r: seq<string>)
    requires AllStrings(items)
    ensures |r| == |items|
    ensures forall i :: 0 <= i < |r| ==> items[i] == StrV(r[i])
  {
    if items == [] then [] else [items[0].s] + Texts(items[1..])
  }

  /** `lambda acc, x: acc + float(x)`; anything that is not a number adds nothing,
      which never happens once the elements are checked. */
  function AddNumber(acc: real, x: Value): real
  {
    if IsNumber(x) then acc + NumberValue(x) else acc
  }

  /** `lambda acc, s: acc + s` on strings. */
  function AppendText(acc: string, x: Value): string
  {
    if x.StrV? then acc + x.s else acc
  }

  /** Folding the numbers onto an accumulator adds their sum to it. */
  lemma {:induction false} FoldSum(items: seq<Value>, acc: real)
    requires AllNumbers(items)
    ensures FoldLeft(items, acc, AddNumber) == acc + SumOf(items)
  {
    if items != [] {
      FoldSum(items[1..], AddNumber(acc, items[0]));
    }
  }

  /** Folding the strings onto an accumulator appends their concatenation to it. */
  lemma {:induction false} FoldConcat(items: seq<Value>, acc: string)
    requires AllStrings(items)
    ensures FoldLeft(items, acc, AppendText) == acc + Concat(Texts(items))
  {
    if items != [] {
      FoldConcat(items[1..], AppendText(acc, items[0]));
      assert Texts(items)[1..] == Texts(items[1..]);
    }
  }

  /** `sumatoria_reduce(numeros)`: TypeError when some element is not an int, float
      (or bool, an int in Python); otherwise the sum of the elements as a float,
      0.0 for none. Floats are modelled as reals, without rounding. */
  function SumReduce(items: seq<Value>): (r: Result<real, ExceptionKind>)
    ensures r.Err? <==> !AllNumbers(items)
    ensures r.Err? ==> r.error == TypeError
    ensures items == [] ==> r == Ok(0.0)
    ensures r.Ok? ==> r.value == SumOf(items)
  {
    if !AllNumbers(items) then Err(TypeError)
    else
      FoldSum(items, 0.0);
      Ok(FoldLeft(items, 0.0, AddNumber))
  }

  /** `concatenar_reduce(partes)`: TypeError when some element is not a str;
      otherwise the parts joined in order, "" for none. */
  function ConcatReduce(items: seq<Value>): (r: Result<string, ExceptionKind>)
    ensures r.Err? <==> !AllStrings(items)
    ensures r.Err? ==> r.error == TypeError
    ensures items == [] ==> r == Ok("")
    ensures r.Ok? ==> r.value == Concat(Texts(items))
  {
    if !AllStrings(items) then Err(TypeError)
    else
      FoldConcat(items, "");
      Ok(FoldLeft(items, "", AppendText))
  }

  /** The concatenation is as long as all the parts together. */
  lemma {:induction false} ConcatLength(parts: seq<string>)
    ensures |Concat(parts)| == TotalLength(parts)
  {
    if parts != [] {
      ConcatLength(parts[1..]);
    }
  }

  /** Every part appears in the result at the offset of the parts before it. */
  lemma {:induction false} ConcatHoldsParts(parts: seq<string>, k: nat)
    requires k < |parts|
    ensures TotalLength(parts[..k]) + |parts[k]| <= |Concat(parts)|
    ensures Concat(parts)[TotalLength(parts[..k])..TotalLength(parts[..k]) + |parts[k]|] == parts[k]
  {
    ConcatLength(parts);
    ConcatLength(parts[1..]);
    if k > 0 {
      ConcatHoldsParts(parts[1..], k - 1);
      assert parts[..k][1..] == parts[1..][..k - 1];
    }
  }

  /** The sum splits over a split of the list. */
  lemma {:induction false} SumAppend(xs: seq<Value>, ys: seq<Value>)
    requires AllNumbers(xs) && AllNumbers(ys)
    ensures AllNumbers(xs + ys)
    ensures SumOf(xs + ys) == SumOf(xs) + SumOf(ys)
  {
    if xs == [] {
      assert xs + ys == ys;
    } else {
      assert (xs + ys)[1..] == xs[1..] + ys;
      SumAppend(xs[1..], ys);
    }
  }

  /** The first example of the tests: [1, 2, 3, 4, 5] sums to 15.0. */
  lemma IntSumExample()
    ensures SumReduce([IntV(1), IntV(2), IntV(3), IntV(4), IntV(5)]) == Ok(15.0)
  {
    var ints := [IntV(1), IntV(2), IntV(3), IntV(4), IntV(5)];
    assert SumOf(ints[4..]) == 5.0 by {
      assert ints[4..][1..] == [];
    }
    assert SumOf(ints[3..]) == 9.0 by {
      assert ints[3..][1..] == ints[4..];
    }
    assert SumOf(ints[2..]) == 12.0 by {
      assert ints[2..][1..] == ints[3..];
    }
    assert SumOf(ints[1..]) == 14.0 by {
      assert ints[1..][1..] == ints[2..];
    }
  }

  /** The float example of the tests: [1.5, 2.25, 0.25] sums to 4.0. */
  lemma FloatSumExample()
    ensures SumReduce([FloatV(1.5), FloatV(2.25), FloatV(0.25)]) == Ok(4.0)
  {
    var floats := [FloatV(1.5), FloatV(2.25), FloatV(0.25)];
    assert SumOf(floats[2..]) == 0.25 by {
      assert floats[2..][1..] == [];
    }
    assert SumOf(floats[1..]) == 2.5 by {
      assert floats[1..][1..] == floats[2..];
    }
  }

  /** The concatenation example of the tests: ["Hola", " ", "SENA", "!"] gives
      "Hola SENA!". */
  lemma ConcatExample()
    ensures ConcatReduce([StrV("Hola"), StrV(" "), StrV("SENA"), StrV("!")]) == Ok("Hola SENA!")
  {
    var parts := [StrV("Hola"), StrV(" "), StrV("SENA"), StrV("!")];
    var ts := ["Hola", " ", "SENA", "!"];
    assert AllStrings(parts);
    assert Texts(parts) == ts;
    ConcatFour("Hola", " ", "SENA", "!");
    assert "Hola" + (" " + ("SENA" + "!")) == "Hola SENA!";
  }

  lemma ConcatFour<T>(a: seq<T>, b: seq<T>, c: seq<T>, d: seq<T>)
    ensures Concat([a, b, c, d]) == a + (b + (c + d))
  {
    var ps := [a, b, c, d];
    assert ps[1..] == [b, c, d] && ps[1..][1..] == [c, d] && ps[1..][1..][1..] == [d];
    assert Concat([d]) == d + Concat([]) == d;
    assert Concat([c, d]) == c + Concat([d]);
    assert Concat([b, c, d]) == b + Concat([c, d]);
  }

  /** The type checks of the tests: a str among numbers, or an int among strings,
      raises TypeError. */
  lemma TypeErrorExamples()
    ensures SumReduce([IntV(1), StrV("x"), IntV(3)]) == Err(TypeError)
    ensures ConcatReduce([StrV("ok"), IntV(2)]) == Err(TypeError)
  {
    assert !IsNumber([IntV(1), StrV("x"), IntV(3)][1]);
    assert ![StrV("ok"), IntV(2)][1].StrV?;
  }

  /** `_parse_csv_textos(texto)`: the stripped, non-blank ','-separated pieces. */
  function ParseCsvTexts(text: string): (r: seq<string>)
    ensures r == Filter(Map(Split(text, ','), Strip), NonBlank)
    ensures forall k :: 0 <= k < |r| ==> IsPiece(r[k], ',') && Strip(r[k]) == r[k]
    ensures Strip(text) == [] ==> r == []
  {
    var ps := Pieces(text, ',');
    forall k | 0 <= k < |ps| ensures Strip(ps[k]) == ps[k] {
      StripOfStripped(ps[k]);
    }
    if Strip(text) == [] then
      BlankTextHasNoPieces(text, ',');
      ps
    else ps
  }

  /** The custom flow of the menu never meets the TypeError on the text side: the parsed
      pieces are strings, and their concatenation holds every piece in order. */
  lemma ParsedTextsConcatenate(text: string)
    ensures ConcatReduce(Map(ParseCsvTexts(text), t => StrV(t))) == Ok(Concat(ParseCsvTexts(text)))
  {
    var ps := ParseCsvTexts(text);
    var items := Map(ps, t => StrV(t));
    assert AllStrings(items);
    assert Texts(items) == ps;
  }
}
