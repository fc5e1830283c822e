/** Filtering students by grade with `filter` and a lambda, and the parser that reads
    "Name:Grade, Name:Grade" text into (name, grade) pairs. */
module Grades {
  import opened Wrappers
  import opened Seqs
  import opened Text
  import opened PyValues

  /** `NOTA_MIN` and `NOTA_MAX`: the allowed range of the pass mark. */
  const MinMark: real := 0.0
  const MaxMark: real := 5.0

  /** A well-formed element: a 2-tuple of a str name and an int/float grade (a bool
      counts as an int, as in Python). */
  predicate IsStudentPair(v: Value)
  {
    v.TupleV? && |v.items| == 2 && v.items[0].StrV? && IsNumber(v.items[1])
  }

  /** `lambda par: float(par[1]) >= float(nota_minima)` on a well-formed pair. */
  function Passes(mark: real): Value -> bool
  {
    v => IsStudentPair(v) && NumberValue(v.items[1]) >= mark
  }

  /** `filtrar_aprobados(estudiantes, nota_minima)`: ValueError for a mark outside
      [0, 5], checked first; TypeError for data that is not a list or holds anything but
      (str, number) pairs; otherwise the pairs whose grade reaches the mark, in order. */
  function FilterPassed(students: Value, mark: real): (r: Result<seq<Value>, ExceptionKind>)
    ensures r == Err(ValueError) <==> !(MinMark <= mark <= MaxMark)
    ensures r == Err(TypeError) <==>
              MinMark <= mark <= MaxMark &&
              (!students.ListV? || exists i :: 0 <= i < |students.items| && !IsStudentPair(students.items[i]))
    ensures r.Ok? ==> IsSubseq(r.value, students.items)
    ensures r.Ok? ==> forall i :: 0 <= i < |r.value| ==>
              IsStudentPair(r.value[i]) && NumberValue(r.value[i].items[1]) >= mark
    ensures r.Ok? ==> |r.value| == Count(students.items, Passes(mark))
  {
    if !(MinMark <= mark <= MaxMark) then Err(ValueError)
    else if !students.ListV? then Err(TypeError)
    else if exists i :: 0 <= i < |students.items| && !IsStudentPair(students.items[i]) then Err(TypeError)
    else
      var r := Filter(students.items, Passes(mark));
      assert forall i :: 0 <= i < |r| ==> Passes(mark)(r[i]);
      Ok(r)
  }

  /** The bound is inclusive: a listed pair is kept exactly when its grade is at least
      the mark. */
  lemma PassedMembership(items: seq<Value>, mark: real, v: Value)
    requires MinMark <= mark <= MaxMark
    requires forall i :: 0 <= i < |items| ==> IsStudentPair(items[i])
    requires v in items
    ensures v in FilterPassed(ListV(items), mark).value <==> NumberValue(v.items[1]) >= mark
  {
    FilterMembership(items, Passes(mark), v);
  }

  /** The boundary case of the filter tests: with mark 3.0, ("A", 3.0) is kept and
      ("B", 2.99) is not. */
  lemma BoundaryExample()
    ensures FilterPassed(ListV([TupleV([StrV("A"), FloatV(3.0)]), TupleV([StrV("B"), FloatV(2.99)])]), 3.0)
            == Ok([TupleV([StrV("A"), FloatV(3.0)])])
  {
    var a := TupleV([StrV("A"), FloatV(3.0)]);
    var b := TupleV([StrV("B"), FloatV(2.99)]);
    var xs := [a, b];
    assert IsStudentPair(a) && IsStudentPair(b);
    assert Passes(3.0)(a) && !Passes(3.0)(b);
    assert xs[1..][1..] == [];
    assert Filter(xs[1..], Passes(3.0)) == [];
    assert Filter(xs, Passes(3.0)) == [a];
  }

  // ---------------------------------------------------------------------------
  // _parse_estudiantes
  // ---------------------------------------------------------------------------

  /** The name the parser records for a blank name. */
  const NoName: string := "—"

  /** `s.replace(old, new)` for single characters. */
  function Replace(s: string, from: char, to: char): (r: string)
    ensures |r| == |s|
    ensures forall i :: 0 <= i < |s| ==> r[i] == (if s[i] == from then to else s[i])
  {
    Map(s, c => if c == from then to else c)
  }

  /** Replacing a character the text does not hold changes nothing. */
  lemma ReplaceAbsent(s: string, from: char, to: char)
    requires from !in s
    ensures Replace(s, from, to) == s
  {
  }

  predicate HasText(t: string)
  {
    Strip(t) != []
  }

  /** The pair one piece contributes: none without a ':'; otherwise the text is cut at
      the first ':', the name stripped (blank becomes "—"), and the grade is the stripped
      rest with ',' read as '.', or none when `float()` rejects it. */
  function PairOf(conv: Conversions): string -> Result<(string, real), string>
  {
    piece =>
      if ':' !in piece then Err(piece)
      else
        var (nameText, gradeText) := SplitOnce(piece, ':');
        var name := Strip(nameText);
        match conv.parseFloat(Replace(Strip(gradeText), ',', '.'))
        case None => Err(piece)
        case Some(g) => Ok((if name == [] then NoName else name, g))
  }

  /** The (name, number) pairs of "Name:Number, Name:Number" text, as both
      `_parse_estudiantes` and `_parse_productos` read them. */
  function NamedPairs(text: string, conv: Conversions): seq<(string, real)>
  {
    if Strip(text) == [] then [] else KeepOk(Filter(Split(text, ','), HasText), PairOf(conv))
  }

  /** `_parse_estudiantes`: the non-blank ','-separated pieces in order; a piece without
      ':' or with a grade `float()` rejects is skipped silently. */
  method ParseStudents(text: string, conv: Conversions) returns (pairs: seq<(string, real)>)
    ensures pairs == NamedPairs(text, conv)
  {
    if Strip(text) == [] {
      return [];
    }
    pairs := [];
    var pieces := Filter(Split(text, ','), HasText);
    var i := 0;
    while i < |pieces|
      invariant 0 <= i <= |pieces|
      invariant pairs == KeepOk(pieces[..i], PairOf(conv))
    {
      var piece := pieces[i];
      TakeSnoc(pieces, i);
      KeepOkSnoc(pieces[..i], piece, PairOf(conv));
      if ':' in piece {
        var (nameText, gradeText) := SplitOnce(piece, ':');
        var name := Strip(nameText);
        var grade := conv.parseFloat(Replace(Strip(gradeText), ',', '.'));
        if grade.Some? {
          assert PairOf(conv)(piece) == Ok((if name == [] then NoName else name, grade.value));
          pairs := pairs + [(if name == [] then NoName else name, grade.value)];
        } else {
          assert PairOf(conv)(piece).Err?;
        }
      } else {
        assert PairOf(conv)(piece).Err?;
      }
      i := i + 1;
    }
    assert pieces[..i] == pieces;
  }

  /** A (name, grade text) line the parser reads back: a name that is a stripped,
      non-empty piece without ':' or ',', and a grade text without ',' that `float()`
      accepts once stripped. */
  predicate IsWritable(e: (string, string), conv: Conversions)
  {
    IsPiece(e.0, ',') && ':' !in e.0 && ',' !in e.1 && conv.parseFloat(Strip(e.1)).Some?
  }

  function LineOf(e: (string, string)): string
  {
    e.0 + ":" + e.1
  }

  /** Writing entries as "name:grade" joined by "," and parsing the text gives back
      each name with the grade `float()` reads from its text, in order. */
  lemma ParseStudentsOfJoin(entries: seq<(string, string)>, conv: Conversions)
    requires entries != []
    requires forall i :: 0 <= i < |entries| ==> IsWritable(entries[i], conv)
    ensures |NamedPairs(Join(Map(entries, LineOf), ","), conv)| == |entries|
    ensures forall i :: 0 <= i < |entries| ==>
              NamedPairs(Join(Map(entries, LineOf), ","), conv)[i].0 == entries[i].0 &&
              conv.parseFloat(Strip(entries[i].1)) == Some(NamedPairs(Join(Map(entries, LineOf), ","), conv)[i].1)
  {
    var lines := Map(entries, LineOf);
    var text := Join(lines, ",");
    var want := Map(entries, ReadBack(conv));
    forall i | 0 <= i < |lines| ensures ',' !in lines[i] && HasText(lines[i]) && PairOf(conv)(lines[i]) == Ok(want[i]) {
      LineReadsBack(entries[i], conv);
    }
    SplitJoin(lines, ',');
    FilterAllTrue(lines, HasText);
    KeepOkAllValues(lines, PairOf(conv), want);
    assert Strip(text) != [] by {
      JoinedPartsAreInside(lines, ',', 0);
      assert lines[0][0] == entries[0].0[0];
      assert !IsSpace(lines[0][0]);
      assert lines[0][0] in text;
    }
  }

  /** The pair a writable entry should read back as. */
  function ReadBack(conv: Conversions): ((string, string)) -> (string, real)
  {
    (e: (string, string)) => (e.0, match conv.parseFloat(Strip(e.1)) case Some(g) => g case None => 0.0)
  }

  /** One written line parses back to its entry. */
  lemma LineReadsBack(e: (string, string), conv: Conversions)
    requires IsWritable(e, conv)
    ensures ',' !in LineOf(e) && HasText(LineOf(e))
    ensures PairOf(conv)(LineOf(e)) == Ok(ReadBack(conv)(e))
  {
    var t := LineOf(e);
    assert t[|e.0|] == ':';
    SplitOnceUnique(t, ':', e.0, e.1);
    StripOfStripped(e.0);
    assert Strip(e.1) == [] || ',' !in Strip(e.1) by {
      if ',' in Strip(e.1) {
        StripInside(e.1, ',');
      }
    }
    ReplaceAbsent(Strip(e.1), ',', '.');
    assert !AllSpace(t) by {
      assert t[0] == e.0[0];
    }
  }

  /** Everything the parser returns can be filtered: as (str, float) tuples the pairs
      pass the structural checks, so the filter fails only on an out-of-range mark. */
  lemma ParsedPairsFilter(text: string, conv: Conversions, mark: real)
    ensures var pairs := NamedPairs(text, conv);
            var students := ListV(Map(pairs, AsTuple));
            FilterPassed(students, mark).Ok? <==> MinMark <= mark <= MaxMark
  {
    var tuples := Map(NamedPairs(text, conv), AsTuple);
    assert forall i :: 0 <= i < |tuples| ==> IsStudentPair(tuples[i]);
  }

  /** A parsed pair as the Python tuple `(nombre, nota)`. */
  function AsTuple(p: (string, real)): Value
  {
    TupleV([StrV(p.0), FloatV(p.1)])
  }
}
