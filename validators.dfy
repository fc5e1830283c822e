/** The generic validator: `aplicar_validador` filters a list with any callable, two
    sample validators (an e-mail shape and "an int greater than 10"), and the two CSV
    parsers the interactive menu uses. */
module Validators {
  import opened Wrappers
  import opened Seqs
  import opened Text
  import opened PyValues

  // ---------------------------------------------------------------------------
  // aplicar_validador
  // ---------------------------------------------------------------------------

  /** `aplicar_validador(datos, validador)`. A callable is `Some(f)`, where `f` gives
      the truth value of its result; anything that is not callable is `None`. Data that
      is not a list, or a validator that is not callable, raises TypeError; otherwise
      the result keeps, in order, exactly the elements the validator accepts. */
  function ApplyValidator(data: Value, validator: Option<Value -> bool>): (r: Result<seq<Value>, ExceptionKind>)
    ensures r.Err? <==> !data.ListV? || validator.None?
    ensures r.Err? ==> r.error == TypeError
    ensures r.Ok? ==> IsSubseq(r.value, data.items)
    ensures r.Ok? ==> forall i :: 0 <= i < |r.value| ==> validator.value(r.value[i])
    ensures r.Ok? ==> |r.value| == Count(data.items, validator.value)
  {
    if !data.ListV? then Err(TypeError)
    else if validator.None? then Err(TypeError)
    else Ok(Filter(data.items, validator.value))
  }

  /** A validator that accepts every element returns a copy of the list; one that
      accepts none returns the empty list. */
  lemma ApplyValidatorExtremes(items: seq<Value>, f: Value -> bool)
    ensures (forall i :: 0 <= i < |items| ==> f(items[i])) ==> ApplyValidator(ListV(items), Some(f)) == Ok(items)
    ensures (forall i :: 0 <= i < |items| ==> !f(items[i])) ==> ApplyValidator(ListV(items), Some(f)) == Ok([])
  {
    if forall i :: 0 <= i < |items| ==> f(items[i]) {
      FilterAllTrue(items, f);
    }
    if forall i :: 0 <= i < |items| ==> !f(items[i]) {
      FilterAllFalse(items, f);
    }
  }

  /** The result is the only order-preserving selection of the accepted elements:
      any sub-sequence of the data made of accepted elements, as many as there are,
      is the result. */
  lemma ApplyValidatorUnique(items: seq<Value>, f: Value -> bool, kept: seq<Value>)
    requires IsSubseq(kept, items)
    requires forall i :: 0 <= i < |kept| ==> f(kept[i])
    requires |kept| == Count(items, f)
    ensures ApplyValidator(ListV(items), Some(f)) == Ok(kept)
  {
    FilterUnique(kept, items, f);
  }

  // ---------------------------------------------------------------------------
  // es_email_valido
  // ---------------------------------------------------------------------------

  predicate AsciiLetter(c: char)
  {
    'A' <= c <= 'Z' || 'a' <= c <= 'z'
  }

  predicate AsciiDigit(c: char)
  {
    '0' <= c <= '9'
  }

  /** `[A-Za-z0-9._%+\-]`, the characters before the '@'. */
  predicate LocalChar(c: char)
  {
    AsciiLetter(c) || AsciiDigit(c) || c == '.' || c == '_' || c == '%' || c == '+' || c == '-'
  }

  /** `[A-Za-z0-9.\-]`, the characters of the domain before its last label. */
  predicate DomainChar(c: char)
  {
    AsciiLetter(c) || AsciiDigit(c) || c == '.' || c == '-'
  }

  /** `t` read as `local@domain.tld`, with the '@' at `at` and the dot before the
      final label at `dot`: the three character classes of the pattern, each part
      non-empty, the final label at least two letters long. */
  predicate ShapeAt(t: string, at: int, dot: int)
  {
    1 <= at && at + 2 <= dot && dot + 3 <= |t| && t[at] == '@' && t[dot] == '.'
    && (forall k :: 0 <= k < at ==> LocalChar(t[k]))
    && (forall k :: at < k < dot ==> DomainChar(t[k]))
    && (forall k :: dot < k < |t| ==> AsciiLetter(t[k]))
  }

  /** The whole of `t` is matched by `[A-Za-z0-9._%+\-]+@[A-Za-z0-9.\-]+\.[A-Za-z]{2,}`
      for some way of cutting it (the regular expression backtracks over the cuts). */
  ghost predicate WholeMatch(t: string)
  {
    exists at, dot :: ShapeAt(t, at, dot)
  }

  /** `re.match` of the anchored pattern `^…$`: `$` also matches just before a final
      "\n", so the text may carry one line break after the match. */
  ghost predicate PatternMatch(t: string)
  {
    WholeMatch(t) || (t != [] && t[|t| - 1] == '\n' && WholeMatch(t[..|t| - 1]))
  }

  /** Index of the last occurrence of `c` in `s`. */
  function LastIndex(s: string, c: char): (k: nat)
    requires c in s
    ensures k < |s| && s[k] == c && c !in s[k + 1..]
    decreases |s|
  {
    if s[|s| - 1] == c then |s| - 1
    else
      assert c in s[..|s| - 1] by {
        var i :| 0 <= i < |s| && s[i] == c;
        assert s[..|s| - 1][i] == c;
      }
      var k := LastIndex(s[..|s| - 1], c);
      assert s[k + 1..] == s[..|s| - 1][k + 1..] + [s[|s| - 1]];
      k
  }

  lemma LastIndexAt(s: string, c: char, k: nat)
    requires k < |s| && s[k] == c && c !in s[k + 1..]
    ensures LastIndex(s, c) == k
  {
  }

  /** The direct check: cut at the first '@' and at the last '.' after it, then test
      the three parts. No other cut can succeed (see EmailCheckMatches). */
  function EmailCheck(t: string): bool
  {
    if '@' !in t then false
    else
      var at := FirstIndex(t, '@');
      var rest := t[at + 1..];
      if '.' !in rest then false
      else ShapeAt(t, at, at + 1 + LastIndex(rest, '.'))
  }

  /** A full match is found by the direct check: its '@' is the first one and its
      '.' the last one after it. */
  lemma ShapeFoundByCheck(t: string, at: int, dot: int)
    requires ShapeAt(t, at, dot)
    ensures EmailCheck(t)
  {
    FirstAtOfShape(t, at, dot);
    var rest := t[at + 1..];
    assert rest[dot - at - 1] == '.';
    var tld := rest[dot - at..];
    assert '.' !in tld by {
      forall k | 0 <= k < |tld| ensures tld[k] != '.' {
        assert tld[k] == t[dot + 1 + k];
        assert AsciiLetter(t[dot + 1 + k]);
      }
    }
    LastIndexAt(rest, '.', dot - at - 1);
  }

  /** The direct check accepts exactly the texts the pattern matches in full. */
  lemma EmailCheckMatches(t: string)
    ensures EmailCheck(t) <==> WholeMatch(t)
  {
    if WholeMatch(t) {
      var at, dot :| ShapeAt(t, at, dot);
      ShapeFoundByCheck(t, at, dot);
    }
  }

  /** `es_email_valido`: False for a non-string; otherwise the text is stripped, and
      is valid when it is non-empty, has no space and matches the pattern. */
  function IsEmail(v: Value): (r: bool)
    ensures r ==> v.StrV? && Strip(v.s) != [] && ' ' !in Strip(v.s)
    ensures r <==> v.StrV? && ' ' !in Strip(v.s) && PatternMatch(Strip(v.s))
  {
    if !v.StrV? then false
    else
      var t := Strip(v.s);
      EmailCheckMatches(t);
      StrippedMatch(v.s);
      if t == [] || ' ' in t then false
      else EmailCheck(t)
  }

  /** Stripped text never ends in "\n", so the line-break allowance of `$` plays no
      part in `es_email_valido`. */
  lemma StrippedMatch(s: string)
    ensures PatternMatch(Strip(s)) <==> WholeMatch(Strip(s))
  {
    var t := Strip(s);
    if t != [] {
      assert IsSpace('\n');
      assert t[|t| - 1] != '\n';
    }
  }

  /** In a matched text the '@' at the cut is the first one. */
  lemma FirstAtOfShape(t: string, at: int, dot: int)
    requires ShapeAt(t, at, dot)
    ensures '@' in t && FirstIndex(t, '@') == at
  {
    assert '@' !in t[..at] by {
      forall k | 0 <= k < at ensures t[..at][k] != '@' {
        assert LocalChar(t[k]);
      }
    }
    FirstIndexAt(t, '@', at);
  }

  /** In a matched text the '@' at the cut is the only one. */
  lemma OnlyOneAt(t: string, at: int, dot: int)
    requires ShapeAt(t, at, dot)
    ensures '@' !in t[at + 1..]
  {
    var after := t[at + 1..];
    forall k | 0 <= k < |after| ensures after[k] != '@' {
      assert after[k] == t[at + 1 + k];
      if at + 1 + k < dot {
        assert DomainChar(t[at + 1 + k]);
      } else if at + 1 + k > dot {
        assert AsciiLetter(t[at + 1 + k]);
      }
    }
  }

  /** A valid address holds exactly one '@'. */
  lemma EmailHasOneAt(v: Value)
    requires IsEmail(v)
    ensures '@' in Strip(v.s) && '@' !in Strip(v.s)[FirstIndex(Strip(v.s), '@') + 1..]
  {
    var t := Strip(v.s);
    var at, dot :| ShapeAt(t, at, dot);
    FirstAtOfShape(t, at, dot);
    OnlyOneAt(t, at, dot);
  }

  /** The shortest accepted case of the e-mail test. */
  lemma EmailAccepted()
    ensures IsEmail(StrV("a@b.co"))
  {
    var t := "a@b.co";
    StripOfStripped(t);
    assert ShapeAt(t, 1, 3);
  }

  /** Text without an '@' is never an address. */
  lemma EmailNeedsAt(v: Value)
    requires v.StrV? && '@' !in v.s
    ensures !IsEmail(v)
  {
  }

  /** The rejected cases of the e-mail test. */
  lemma EmailRejected()
    ensures !IsEmail(StrV("invalido"))
    ensures !IsEmail(StrV(""))
  {
    EmailNeedsAt(StrV("invalido"));
  }

  /** A domain without a '.' is rejected: "a@b". */
  lemma EmailWithoutDotRejected()
    ensures !IsEmail(StrV("a@b"))
  {
    StripOfStripped("a@b");
  }

  // ---------------------------------------------------------------------------
  // es_mayor_a_10
  // ---------------------------------------------------------------------------

  /** `es_mayor_a_10`: False for anything that is not an int; Python's bools are ints,
      and compare as 0 and 1. */
  function IsGreaterThan10(v: Value): (r: bool)
    ensures r <==> v.IntV? && v.i > 10
  {
    match v
    case IntV(i) => i > 10
    case BoolV(b) => (if b then 1 else 0) > 10
    case _ => false
  }

  /** The integer case of the filter test: [4, 11, 9, 25, 10, 13] keeps [11, 25, 13]. */
  lemma GreaterThan10Example()
    ensures ApplyValidator(ListV([IntV(4), IntV(11), IntV(9), IntV(25), IntV(10), IntV(13)]), Some(IsGreaterThan10))
            == Ok([IntV(11), IntV(25), IntV(13)])
  {
    FilterGreaterThan10([IntV(4), IntV(11), IntV(9), IntV(25), IntV(10), IntV(13)]);
  }

  lemma FilterGreaterThan10(xs: seq<Value>)
    requires xs == [IntV(4), IntV(11), IntV(9), IntV(25), IntV(10), IntV(13)]
    ensures Filter(xs, IsGreaterThan10) == [IntV(11), IntV(25), IntV(13)]
  {
    var f := IsGreaterThan10;
    assert Filter(xs[5..], f) == [IntV(13)] by { assert xs[5..][1..] == []; }
    assert Filter(xs[4..], f) == [IntV(13)] by { assert xs[4..][1..] == xs[5..]; }
    assert Filter(xs[3..], f) == [IntV(25), IntV(13)] by { assert xs[3..][1..] == xs[4..]; }
    assert Filter(xs[2..], f) == [IntV(25), IntV(13)] by { assert xs[2..][1..] == xs[3..]; }
    assert Filter(xs[1..], f) == [IntV(11), IntV(25), IntV(13)] by { assert xs[1..][1..] == xs[2..]; }
  }

  // ---------------------------------------------------------------------------
  // _parse_csv_enteros
  // ---------------------------------------------------------------------------

  /** A piece `int()` accepts, as the number it denotes. */
  function ParsedBy(conv: Conversions): string -> Result<int, string>
  {
    p => if conv.parseInt(p).Some? then Ok(conv.parseInt(p).value) else Err(p)
  }

  /** A piece `int()` rejects with ValueError. */
  function RejectedBy(conv: Conversions): string -> bool
  {
    p => conv.parseInt(p).None?
  }

  /** What `_parse_csv_enteros` returns: the numbers of the ','-separated pieces that
      parse, and the pieces that do not, both in input order. */
  function ParseCsvIntsSpec(text: string, conv: Conversions): (seq<int>, seq<string>)
  {
    Partition(Pieces(text, ','), conv)
  }

  /** The numbers `int()` gives for the pieces it accepts, and the pieces it rejects. */
  function Partition(ps: seq<string>, conv: Conversions): (seq<int>, seq<string>)
  {
    (KeepOk(ps, ParsedBy(conv)), Filter(ps, RejectedBy(conv)))
  }

  /** The stripped, non-empty forms of some tokens: Pieces before its blank guard. */
  function Stripped(tokens: seq<string>): seq<string>
  {
    Filter(Map(tokens, Strip), NonBlank)
  }

  /** One more token adds its stripped form to the pieces when that is not empty. */
  lemma StrippedSnoc(tokens: seq<string>, t: string)
    ensures Stripped(tokens + [t]) == Stripped(tokens) + (if Strip(t) != [] then [Strip(t)] else [])
  {
    MapAppend(tokens, [t], Strip);
    assert Map([t], Strip) == [Strip(t)];
    FilterAppend(Map(tokens, Strip), [Strip(t)], NonBlank);
    assert [Strip(t)][1..] == [];
    assert Filter([Strip(t)], NonBlank) == if Strip(t) != [] then [Strip(t)] else [];
  }

  /** One more piece goes to exactly one of the two lists. */
  lemma ParseStep(ps: seq<string>, piece: string, conv: Conversions)
    ensures conv.parseInt(piece).None? ==>
              Partition(ps + [piece], conv) == (Partition(ps, conv).0, Partition(ps, conv).1 + [piece])
    ensures conv.parseInt(piece).Some? ==>
              Partition(ps + [piece], conv) == (Partition(ps, conv).0 + [conv.parseInt(piece).value], Partition(ps, conv).1)
  {
    KeepOkAppend(ps, [piece], ParsedBy(conv));
    FilterAppend(ps, [piece], RejectedBy(conv));
    assert [piece][1..] == [];
    assert KeepOk([piece][1..], ParsedBy(conv)) == [];
    assert RejectedBy(conv)(piece) == conv.parseInt(piece).None?;
    if conv.parseInt(piece).Some? {
      assert ParsedBy(conv)(piece) == Ok(conv.parseInt(piece).value);
      assert KeepOk([piece], ParsedBy(conv)) == [conv.parseInt(piece).value];
      assert Filter([piece], RejectedBy(conv)) == [];
      assert Filter(ps + [piece], RejectedBy(conv)) == Filter(ps, RejectedBy(conv)) + [] == Filter(ps, RejectedBy(conv));
    } else {
      assert ParsedBy(conv)(piece).Err?;
      assert KeepOk([piece], ParsedBy(conv)) == [];
      assert Filter([piece], RejectedBy(conv)) == [piece];
      assert KeepOk(ps + [piece], ParsedBy(conv)) == KeepOk(ps, ParsedBy(conv)) + [] == KeepOk(ps, ParsedBy(conv));
    }
  }

  /** What one more token does to the two lists: nothing when it is blank; otherwise
      its stripped form joins the invalid tokens or its number joins the numbers. */
  function Step(acc: (seq<int>, seq<string>), token: string, conv: Conversions): (seq<int>, seq<string>)
  {
    var piece := Strip(token);
    if piece == [] then acc
    else if conv.parseInt(piece).None? then (acc.0, acc.1 + [piece])
    else (acc.0 + [conv.parseInt(piece).value], acc.1)
  }

  lemma TokenStep(prefix: seq<string>, token: string, conv: Conversions)
    ensures Partition(Stripped(prefix + [token]), conv) == Step(Partition(Stripped(prefix), conv), token, conv)
  {
    var piece := Strip(token);
    var ps := Stripped(prefix);
    StrippedSnoc(prefix, token);
    if piece != [] {
      assert Stripped(prefix + [token]) == ps + [piece];
      ParseStep(ps, piece, conv);
    } else {
      assert Stripped(prefix + [token]) == ps + [] == ps;
    }
  }

  /** `_parse_csv_enteros`: a blank text gives two empty lists; otherwise each
      ','-separated token is stripped, skipped when empty, and converted with `int()`,
      going to the numbers or, on ValueError, to the invalid tokens. */
  method ParseCsvInts(text: string, conv: Conversions) returns (numbers: seq<int>, invalid: seq<string>)
    ensures (numbers, invalid) == ParseCsvIntsSpec(text, conv)
  {
    if Strip(text) == [] {
      return [], [];
    }
    numbers, invalid := [], [];
    var tokens := Split(text, ',');
    var i := 0;
    while i < |tokens|
      invariant 0 <= i <= |tokens|
      invariant (numbers, invalid) == Partition(Stripped(tokens[..i]), conv)
    {
      TakeSnoc(tokens, i);
      TokenStep(tokens[..i], tokens[i], conv);
      numbers, invalid := ParseToken(tokens[i], conv, numbers, invalid);
      i := i + 1;
    }
    assert tokens[..i] == tokens;
  }

  /** The body of the loop of `_parse_csv_enteros` for one token. */
  method ParseToken(token: string, conv: Conversions, numbers: seq<int>, invalid: seq<string>)
    returns (numbers': seq<int>, invalid': seq<string>)
    ensures (numbers', invalid') == Step((numbers, invalid), token, conv)
  {
    numbers', invalid' := numbers, invalid;
    var piece := Strip(token);
    if piece != [] {
      var n := conv.parseInt(piece);
      if n.None? {
        invalid' := invalid + [piece];
      } else {
        numbers' := numbers + [n.value];
      }
    }
  }

  /** Each piece goes to exactly one of the two lists. */
  lemma {:induction false} PartitionSizes(ps: seq<string>, conv: Conversions)
    ensures |KeepOk(ps, ParsedBy(conv))| + |Filter(ps, RejectedBy(conv))| == |ps|
  {
    if ps != [] {
      PartitionSizes(ps[1..], conv);
    }
  }

  /** Every piece ends up in exactly one of the two lists: the counts add up to the
      number of pieces, each invalid token is a stripped non-empty piece `int()`
      rejects, and each number is what `int()` gives for some piece. */
  lemma ParseCsvIntsPartition(text: string, conv: Conversions)
    ensures |ParseCsvIntsSpec(text, conv).0| + |ParseCsvIntsSpec(text, conv).1| == |Pieces(text, ',')|
    ensures forall k :: 0 <= k < |ParseCsvIntsSpec(text, conv).1| ==>
              IsPiece(ParseCsvIntsSpec(text, conv).1[k], ',') && conv.parseInt(ParseCsvIntsSpec(text, conv).1[k]).None?
    ensures forall k :: 0 <= k < |ParseCsvIntsSpec(text, conv).0| ==>
              exists j :: 0 <= j < |Pieces(text, ',')| && conv.parseInt(Pieces(text, ',')[j]) == Some(ParseCsvIntsSpec(text, conv).0[k])
  {
    var ps := Pieces(text, ',');
    var (numbers, invalid) := ParseCsvIntsSpec(text, conv);
    PartitionSizes(ps, conv);
    forall k | 0 <= k < |invalid| ensures IsPiece(invalid[k], ',') {
      FilterMembership(ps, RejectedBy(conv), invalid[k]);
    }
    forall k | 0 <= k < |numbers|
      ensures exists j :: 0 <= j < |ps| && conv.parseInt(ps[j]) == Some(numbers[k])
    {
      var j :| 0 <= j < |ps| && ParsedBy(conv)(ps[j]) == Ok(numbers[k]);
      assert conv.parseInt(ps[j]) == Some(numbers[k]);
    }
  }
}
