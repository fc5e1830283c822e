/** The report generator: students read from a CSV file (name and ';'-separated
    course ids), a course catalogue read from JSON (id -> name), and a text report
    with one line per student naming the courses that exist in the catalogue. */
module Reports {
  import opened Wrappers
  import opened Seqs
  import opened Text
  import opened PyValues

  /** A student as `leer_csv_estudiantes` returns it. */
  datatype Student = Student(name: string, courses: seq<string>)

  /** Why reading or reporting raised, with the Python exception class it raises. */
  datatype ReportError =
    | NoHeader | MissingColumns | BadCatalogue
    | StudentsNotAList | CoursesNotADict | StudentNotADict | CoursesNotIterable | UnhashableId
  {
    function Kind(): ExceptionKind
    {
      match this
      case NoHeader | MissingColumns | BadCatalogue => ValueError
      case _ => TypeError
    }
  }

  // ---------------------------------------------------------------------------
  // Course ids and CSV rows
  // ---------------------------------------------------------------------------

  /** `_parsear_cursos`: the ';'-separated ids, stripped, blanks dropped, in order. */
  function ParseCourses(text: string): (r: seq<string>)
    ensures forall k :: 0 <= k < |r| ==> IsPiece(r[k], ';')
    ensures AllSpace(text) ==> r == []
  {
    Pieces(text, ';')
  }

  /** A CSV row as `csv.DictReader` yields it: cells keyed by the header text as
      written; a cell is None when the row is shorter than the header. */
  type Row = map<string, Option<string>>

  /** `(fila.get(key) or "")` */
  function Cell(row: Row, key: string): string
  {
    if key in row && row[key].Some? then row[key].value else ""
  }

  predicate HasName(row: Row)
  {
    Strip(Cell(row, "nombre")) != []
  }

  function ToStudent(row: Row): Student
  {
    Student(Strip(Cell(row, "nombre")), ParseCourses(Strip(Cell(row, "cursos"))))
  }

  /** The students the row loop of `leer_csv_estudiantes` collects from `rows`. */
  function StudentsOf(rows: seq<Row>): (r: seq<Student>)
    ensures forall k :: 0 <= k < |r| ==> r[k].name != [] && !IsSpace(r[k].name[0]) && !IsSpace(r[k].name[|r[k].name| - 1])
    ensures |r| <= |rows|
    decreases |rows|
  {
    if rows == [] then []
    else
      var row := rows[|rows| - 1];
      var prev := StudentsOf(rows[..|rows| - 1]);
      if Strip(Cell(row, "nombre")) == [] then prev else prev + [ToStudent(row)]
  }

  /** The students read are exactly the rows with a non-blank name, in row order,
      each with its name stripped and its course ids parsed. */
  lemma {:induction false} StudentsOfNamedRows(rows: seq<Row>)
    ensures StudentsOf(rows) == Map(Filter(rows, HasName), ToStudent)
    decreases |rows|
  {
    if rows != [] {
      var init := rows[..|rows| - 1];
      var row := rows[|rows| - 1];
      StudentsOfNamedRows(init);
      assert rows == init + [row];
      FilterMapSnoc(init, row, HasName, ToStudent);
    }
  }

  /** The header check of `leer_csv_estudiantes`: "nombre" and "cursos" must be among
      the header names once stripped. */
  predicate HeaderOk(header: seq<string>)
  {
    "nombre" in Map(header, Strip) && "cursos" in Map(header, Strip)
  }

  /** `leer_csv_estudiantes` after CSV decoding: `header` is the reader's field names
      (None for an empty file) and `rows` its rows. */
  method ReadStudents(header: Option<seq<string>>, rows: seq<Row>) returns (r: Result<seq<Student>, ReportError>)
    ensures header.None? ==> r == Err(NoHeader)
    ensures header.Some? && !HeaderOk(header.value) ==> r == Err(MissingColumns)
    ensures header.Some? && HeaderOk(header.value) ==> r == Ok(StudentsOf(rows))
    ensures r.Err? ==> r.error.Kind() == ValueError
  {
    if header.None? {
      return Err(NoHeader);
    }
    var fields := Map(header.value, Strip);
    if !("nombre" in fields && "cursos" in fields) {
      return Err(MissingColumns);
    }
    var students: seq<Student> := [];
    var i := 0;
    while i < |rows|
      invariant 0 <= i <= |rows|
      invariant students == StudentsOf(rows[..i])
    {
      assert rows[..i + 1][..i] == rows[..i];
      var name := Strip(Cell(rows[i], "nombre"));
      var courses := Strip(Cell(rows[i], "cursos"));
      if name != [] {
        students := students + [Student(name, ParseCourses(courses))];
      }
      i := i + 1;
    }
    assert rows[..i] == rows;
    return Ok(students);
  }

  // ---------------------------------------------------------------------------
  // The course catalogue
  // ---------------------------------------------------------------------------

  /** `{str(k): str(v) for k, v in datos.items()}` */
  function DictToMap(entries: seq<(Value, Value)>, conv: Conversions): (m: map<string, string>)
    ensures forall k :: k in m <==> exists i :: 0 <= i < |entries| && ToStr(entries[i].0, conv) == k
    decreases |entries|
  {
    if entries == [] then map[]
    else
      var init := entries[..|entries| - 1];
      var last := entries[|entries| - 1];
      var m := DictToMap(init, conv)[ToStr(last.0, conv) := ToStr(last.1, conv)];
      assert forall k :: k in m <==> exists i :: 0 <= i < |entries| && ToStr(entries[i].0, conv) == k by {
        forall k ensures k in m <==> exists i :: 0 <= i < |entries| && ToStr(entries[i].0, conv) == k {
          if k in m && k != ToStr(last.0, conv) {
            var i :| 0 <= i < |init| && ToStr(init[i].0, conv) == k;
            assert ToStr(entries[i].0, conv) == k;
          }
          if exists i :: 0 <= i < |entries| && ToStr(entries[i].0, conv) == k {
            var i :| 0 <= i < |entries| && ToStr(entries[i].0, conv) == k;
            if i < |init| { assert ToStr(init[i].0, conv) == k; }
          }
        }
      }
      m
  }

  /** Each text key of the catalogue built from an object holds the text of the
      value of the last entry whose key reads as that text. */
  lemma {:induction false} DictToMapValues(entries: seq<(Value, Value)>, conv: Conversions, k: string)
    requires k in DictToMap(entries, conv)
    ensures exists i :: 0 <= i < |entries| && ToStr(entries[i].0, conv) == k &&
              DictToMap(entries, conv)[k] == ToStr(entries[i].1, conv) &&
              forall j :: i < j < |entries| ==> ToStr(entries[j].0, conv) != k
    decreases |entries|
  {
    var n := |entries| - 1;
    var init := entries[..n];
    if ToStr(entries[n].0, conv) != k {
      DictToMapValues(init, conv, k);
      var i :| 0 <= i < |init| && ToStr(init[i].0, conv) == k &&
               DictToMap(init, conv)[k] == ToStr(init[i].1, conv) &&
               forall j :: i < j < |init| ==> ToStr(init[j].0, conv) != k;
      assert entries[i] == init[i];
      forall j | i < j < |entries| ensures ToStr(entries[j].0, conv) != k {
        if j < n { assert entries[j] == init[j]; }
      }
    }
  }

  /** The (id, name) pair one list entry contributes: dicts only, both stripped and
      non-empty, missing keys read as "". */
  function CatalogueEntry(item: Value, conv: Conversions): (r: Option<(string, string)>)
    ensures r.Some? ==> item.DictV? && r.value.0 != [] && r.value.1 != []
    ensures r.Some? <==> item.DictV? && !AllSpace(ToStr(GetOr(item.entries, StrV("id"), StrV("")), conv))
                                     && !AllSpace(ToStr(GetOr(item.entries, StrV("nombre"), StrV("")), conv))
    ensures r.Some? ==> r.value == (Strip(ToStr(GetOr(item.entries, StrV("id"), StrV("")), conv)),
                                    Strip(ToStr(GetOr(item.entries, StrV("nombre"), StrV("")), conv)))
  {
    if !item.DictV? then None
    else
      var cid := Strip(ToStr(GetOr(item.entries, StrV("id"), StrV("")), conv));
      var name := Strip(ToStr(GetOr(item.entries, StrV("nombre"), StrV("")), conv));
      if cid != [] && name != [] then Some((cid, name)) else None
  }

  /** CatalogueEntry as a function value. */
  function EntryOf(conv: Conversions): Value -> Option<(string, string)>
  {
    (item: Value) => CatalogueEntry(item, conv)
  }

  /** The catalogue the list loop of `leer_json_cursos` builds from `items`. */
  function CatalogueOf(items: seq<Value>, conv: Conversions): map<string, string>
  {
    Collect(items, EntryOf(conv))
  }

  /** An id is in the catalogue exactly when some entry of the list supplies it, and
      then both the id and its name are non-empty and stripped. */
  lemma CatalogueKeys(items: seq<Value>, conv: Conversions, k: string)
    ensures k in CatalogueOf(items, conv) <==>
            exists i :: 0 <= i < |items| && CatalogueEntry(items[i], conv).Some? && CatalogueEntry(items[i], conv).value.0 == k
    ensures k in CatalogueOf(items, conv) ==> k != [] && CatalogueOf(items, conv)[k] != []
  {
    CollectSource(items, EntryOf(conv), k);
    if k in CatalogueOf(items, conv) {
      var i :| 0 <= i < |items| && EntryOf(conv)(items[i]) == Some((k, CatalogueOf(items, conv)[k]));
      assert CatalogueEntry(items[i], conv).Some?;
    }
  }

  /** Later ids overwrite earlier ones: the name stored for an id is the one of the
      last entry that supplies it. */
  lemma CatalogueLastWins(items: seq<Value>, conv: Conversions, i: nat)
    requires i < |items| && CatalogueEntry(items[i], conv).Some?
    requires forall j :: i < j < |items| && CatalogueEntry(items[j], conv).Some? ==>
               CatalogueEntry(items[j], conv).value.0 != CatalogueEntry(items[i], conv).value.0
    ensures var (cid, name) := CatalogueEntry(items[i], conv).value;
            cid in CatalogueOf(items, conv) && CatalogueOf(items, conv)[cid] == name
  {
    CollectLastWins(items, EntryOf(conv), i);
  }

  /** `leer_json_cursos` after decoding: an object maps every key to its value as text;
      a list is read entry by entry; anything else raises ValueError. */
  method ReadCourses(data: Value, conv: Conversions) returns (r: Result<map<string, string>, ReportError>)
    ensures data.DictV? ==> r == Ok(DictToMap(data.entries, conv))
    ensures data.ListV? ==> r == Ok(CatalogueOf(data.items, conv))
    ensures !data.DictV? && !data.ListV? ==> r == Err(BadCatalogue) && r.error.Kind() == ValueError
  {
    if data.DictV? {
      return Ok(DictToMap(data.entries, conv));
    }
    if !data.ListV? {
      return Err(BadCatalogue);
    }
    var items := data.items;
    var courses: map<string, string> := map[];
    var i := 0;
    while i < |items|
      invariant 0 <= i <= |items|
      invariant courses == Collect(items[..i], EntryOf(conv))
    {
      assert items[..i + 1][..i] == items[..i];
      var item := items[i];
      if item.DictV? {
        var cid := Strip(ToStr(GetOr(item.entries, StrV("id"), StrV("")), conv));
        var name := Strip(ToStr(GetOr(item.entries, StrV("nombre"), StrV("")), conv));
        if cid != [] && name != [] {
          courses := courses[cid := name];
        }
      }
      i := i + 1;
    }
    assert items[..i] == items;
    return Ok(courses);
  }

  // ---------------------------------------------------------------------------
  // The report
  // ---------------------------------------------------------------------------

  /** `list(x)`: the values iterating `x` yields, None when `x` is not iterable. */
  function Iterate(x: Value): (r: Option<seq<Value>>)
    ensures (x.ListV? || x.TupleV? || x.SetV? || x.FrozenSetV?) ==> r == Some(x.items)
    ensures x.StrV? ==> r.Some? && |r.value| == |x.s|
    ensures x.NoneV? || x.BoolV? || x.IntV? || x.FloatV? ==> r.None?
  {
    match x
    case ListV(items) => Some(items)
    case TupleV(items) => Some(items)
    case SetV(items) => Some(items)
    case FrozenSetV(items) => Some(items)
    case DictV(entries) => Some(Map(entries, (e: (Value, Value)) => e.0))
    case StrV(s) => Some(Map(s, (c: char) => StrV([c])))
    case BytesV(bs) => Some(Map(bs, (b: int) => IntV(b)))
    case ByteArrayV(bs) => Some(Map(bs, (b: int) => IntV(b)))
    case _ => None
  }

  /** `cid in cursos` for a hashable id: only a text id can equal a key of a
      catalogue of texts. */
  predicate Known(id: Value, courses: map<string, string>)
  {
    id.StrV? && id.s in courses
  }

  /** Known as a function value. */
  function KnownIn(courses: map<string, string>): Value -> bool
  {
    (id: Value) => Known(id, courses)
  }

  /** `cursos[cid]` for a known id. */
  function NameFor(courses: map<string, string>): Value -> string
  {
    (id: Value) => if Known(id, courses) then courses[id.s] else ""
  }

  predicate AllHashable(ids: seq<Value>)
  {
    forall i :: 0 <= i < |ids| ==> Hashable(ids[i])
  }

  /** `[cursos[cid] for cid in filter(lambda cid: cid in cursos, ids)]`: TypeError
      as soon as an id is unhashable, otherwise the names of the known ids in order. */
  function NamesOf(ids: seq<Value>, courses: map<string, string>): (r: Result<seq<string>, ReportError>)
    ensures r.Err? <==> !AllHashable(ids)
    ensures r.Err? ==> r.error == UnhashableId && r.error.Kind() == TypeError
    ensures r.Ok? ==> r.value == Map(Filter(ids, KnownIn(courses)), NameFor(courses))
  {
    if ids == [] then Ok([])
    else if !Hashable(ids[0]) then Err(UnhashableId)
    else
      var rest := NamesOf(ids[1..], courses);
      assert AllHashable(ids) <==> AllHashable(ids[1..]) by {
        if AllHashable(ids[1..]) {
          forall i | 1 <= i < |ids| ensures Hashable(ids[i]) { assert ids[i] == ids[1..][i - 1]; }
        }
      }
      if rest.Err? then rest
      else
        FilterCons(ids[0], ids[1..], KnownIn(courses));
        assert [ids[0]] + ids[1..] == ids;
        if Known(ids[0], courses) then
          MapAppend([ids[0]], Filter(ids[1..], KnownIn(courses)), NameFor(courses));
          Ok([courses[ids[0].s]] + rest.value)
        else Ok(rest.value)
  }

  /** The names are there exactly when some id is known, and each is a catalogue name. */
  lemma NamesOfKnown(ids: seq<Value>, courses: map<string, string>)
    requires AllHashable(ids)
    ensures NamesOf(ids, courses).Ok?
    ensures |NamesOf(ids, courses).value| == Count(ids, KnownIn(courses))
    ensures NamesOf(ids, courses).value == [] <==> forall i :: 0 <= i < |ids| ==> !Known(ids[i], courses)
    ensures forall k :: 0 <= k < |NamesOf(ids, courses).value| ==> NamesOf(ids, courses).value[k] in courses.Values
  {
    var kept := Filter(ids, KnownIn(courses));
    forall i | 0 <= i < |ids| && Known(ids[i], courses) ensures kept != [] {
      FilterMembership(ids, KnownIn(courses), ids[i]);
    }
    forall k | 0 <= k < |kept| ensures Known(kept[k], courses) {
      assert KnownIn(courses)(kept[k]);
    }
    if kept != [] {
      FilterMembership(ids, KnownIn(courses), kept[0]);
    }
  }

  /** One report line: "nombre: " and the known course names joined by ", ", or
      "(sin cursos)" when none is known. */
  function LineOf(name: string, names: seq<string>): string
  {
    name + ": " + (if names == [] then "(sin cursos)" else Join(names, ", "))
  }

  /** The name `generar_reporte` reads from a student dict. */
  function NameOf(entries: seq<(Value, Value)>, conv: Conversions): string
  {
    Strip(ToStr(GetOr(entries, StrV("nombre"), StrV("")), conv))
  }

  /** The course ids `generar_reporte` reads from a student dict, before `list()`. */
  function CourseIds(entries: seq<(Value, Value)>): Value
  {
    GetOr(entries, StrV("cursos"), ListV([]))
  }

  /** What one student contributes: an error, no line (blank name) or one line. The
      course ids are listed before the name is checked, and looked up after, as in
      the source. */
  function StudentLine(student: Value, courses: map<string, string>, conv: Conversions): (r: Result<Option<string>, ReportError>)
    ensures !student.DictV? ==> r == Err(StudentNotADict)
    ensures student.DictV? && Iterate(CourseIds(student.entries)).None? ==> r == Err(CoursesNotIterable)
    ensures student.DictV? && Iterate(CourseIds(student.entries)).Some? && NameOf(student.entries, conv) == [] ==>
              r == Ok(None)
    ensures student.DictV? && Iterate(CourseIds(student.entries)).Some? && NameOf(student.entries, conv) != [] ==>
              var ids := Iterate(CourseIds(student.entries)).value;
              (r.Err? <==> !AllHashable(ids)) &&
              (r.Err? ==> r.error == UnhashableId) &&
              (r.Ok? ==> r.value == Some(LineOf(NameOf(student.entries, conv), NamesOf(ids, courses).value)))
  {
    if !student.DictV? then Err(StudentNotADict)
    else
      var name := NameOf(student.entries, conv);
      match Iterate(CourseIds(student.entries))
      case None => Err(CoursesNotIterable)
      case Some(ids) =>
        if name == [] then Ok(None)
        else match NamesOf(ids, courses)
          case Err(e) => Err(e)
          case Ok(names) => Ok(Some(LineOf(name, names)))
  }

  /** The lines the loop of `generar_reporte` collects; the first student that raises
      aborts the report. */
  function ReportLines(students: seq<Value>, courses: map<string, string>, conv: Conversions): (r: Result<seq<string>, ReportError>)
    ensures r.Err? ==> r.error.Kind() == TypeError
    ensures r.Ok? ==> |r.value| <= |students|
    decreases |students|
  {
    if students == [] then Ok([])
    else
      match ReportLines(students[..|students| - 1], courses, conv)
      case Err(e) => Err(e)
      case Ok(lines) =>
        match StudentLine(students[|students| - 1], courses, conv)
        case Err(e) => Err(e)
        case Ok(None) => Ok(lines)
        case Ok(Some(l)) => Ok(lines + [l])
  }

  /** `"\n".join(lineas) + ("\n" if lineas else "")` */
  function ReportText(lines: seq<string>): (text: string)
    ensures lines == [] <==> text == []
    ensures lines != [] ==> text[|text| - 1] == '\n' && text[..|text| - 1] == Join(lines, "\n")
  {
    if lines == [] then "" else Join(lines, "\n") + "\n"
  }

  /** `generar_reporte` */
  function ReportSpec(students: Value, courses: Option<map<string, string>>, conv: Conversions): Result<string, ReportError>
  {
    if !students.ListV? then Err(StudentsNotAList)
    else if courses.None? then Err(CoursesNotADict)
    else match ReportLines(students.items, courses.value, conv)
      case Err(e) => Err(e)
      case Ok(lines) => Ok(ReportText(lines))
  }

  /** The loop of `generar_reporte`: `students` is the argument as given, `courses` is
      None when the catalogue argument is not a dict. */
  method GenerateReport(students: Value, courses: Option<map<string, string>>, conv: Conversions) returns (r: Result<string, ReportError>)
    ensures r == ReportSpec(students, courses, conv)
    ensures r.Err? ==> r.error.Kind() == TypeError
  {
    if !students.ListV? {
      return Err(StudentsNotAList);
    }
    if courses.None? {
      return Err(CoursesNotADict);
    }
    var items := students.items;
    var lines: seq<string> := [];
    var i := 0;
    while i < |items|
      invariant 0 <= i <= |items|
      invariant ReportLines(items[..i], courses.value, conv) == Ok(lines)
    {
      ReportLinesPrefix(items, i, courses.value, conv);
      var line := StudentLine(items[i], courses.value, conv);
      if line.Err? {
        ReportLinesErrPersists(items, i + 1, courses.value, conv);
        return Err(line.error);
      }
      if line.value.Some? {
        lines := lines + [line.value.value];
      }
      i := i + 1;
    }
    assert items[..i] == items;
    return Ok(ReportText(lines));
  }

  /** One student more after a prefix that raised nothing: its line, if any, is added,
      and its error, if any, becomes the result. */
  lemma ReportLinesPrefix(items: seq<Value>, i: nat, courses: map<string, string>, conv: Conversions)
    requires i < |items| && ReportLines(items[..i], courses, conv).Ok?
    ensures var line := StudentLine(items[i], courses, conv);
            ReportLines(items[..i + 1], courses, conv) ==
              if line.Err? then Err(line.error)
              else if line.value.Some? then Ok(ReportLines(items[..i], courses, conv).value + [line.value.value])
              else ReportLines(items[..i], courses, conv)
  {
    assert items[..i + 1][..i] == items[..i];
  }

  /** Once a prefix of the students raises, so does the whole list. */
  lemma {:induction false} ReportLinesErrPersists(items: seq<Value>, n: nat, courses: map<string, string>, conv: Conversions)
    requires n <= |items|
    requires ReportLines(items[..n], courses, conv).Err?
    ensures ReportLines(items, courses, conv) == ReportLines(items[..n], courses, conv)
    decreases |items| - n
  {
    if n < |items| {
      assert items[..n + 1][..n] == items[..n];
      ReportLinesErrPersists(items, n + 1, courses, conv);
    } else {
      assert items[..n] == items;
    }
  }

  /** A student that is not a dict makes the whole report raise TypeError. */
  lemma ReportRejectsNonDict(items: seq<Value>, k: nat, courses: map<string, string>, conv: Conversions)
    requires k < |items| && !items[k].DictV?
    ensures ReportLines(items, courses, conv).Err?
  {
    var pre := ReportLines(items[..k + 1], courses, conv);
    assert items[..k + 1][..k] == items[..k];
    assert pre.Err?;
    ReportLinesErrPersists(items, k + 1, courses, conv);
  }

  /** A student with a name whose course ids hold an unhashable value (a list, say)
      makes `cid in cursos` raise, so the whole report raises TypeError. */
  lemma ReportRejectsUnhashable(items: seq<Value>, k: nat, courses: map<string, string>, conv: Conversions)
    requires k < |items| && items[k].DictV? && NameOf(items[k].entries, conv) != []
    requires Iterate(CourseIds(items[k].entries)).Some? && !AllHashable(Iterate(CourseIds(items[k].entries)).value)
    ensures ReportLines(items, courses, conv).Err?
    ensures ReportLines(items, courses, conv).error.Kind() == TypeError
  {
    var line := StudentLine(items[k], courses, conv);
    assert line.Err? && line.error == UnhashableId;
    if ReportLines(items[..k], courses, conv).Err? {
      ReportLinesErrPersists(items, k, courses, conv);
    } else {
      ReportLinesPrefix(items, k, courses, conv);
      ReportLinesErrPersists(items, k + 1, courses, conv);
    }
  }

  predicate Named(student: Value, conv: Conversions)
  {
    student.DictV? && NameOf(student.entries, conv) != []
  }

  /** Named as a function value. */
  function NamedIn(conv: Conversions): Value -> bool
  {
    (student: Value) => Named(student, conv)
  }

  /** The line a student with a name and iterable course ids contributes. */
  function LineFor(student: Value, courses: map<string, string>, conv: Conversions): string
  {
    if !student.DictV? then ""
    else match Iterate(CourseIds(student.entries))
      case None => ""
      case Some(ids) =>
        var names := NamesOf(ids, courses);
        LineOf(NameOf(student.entries, conv), if names.Ok? then names.value else [])
  }

  /** LineFor as a function value. */
  function LinesFor(courses: map<string, string>, conv: Conversions): Value -> string
  {
    (student: Value) => LineFor(student, courses, conv)
  }

  /** When the report succeeds it has one line per student with a non-blank name, in
      input order, each "name: courses" as LineOf builds it. */
  lemma {:induction false} ReportLinesAreNamedStudents(students: seq<Value>, courses: map<string, string>, conv: Conversions)
    requires ReportLines(students, courses, conv).Ok?
    ensures ReportLines(students, courses, conv).value == Map(Filter(students, NamedIn(conv)), LinesFor(courses, conv))
    decreases |students|
  {
    if students != [] {
      var init := students[..|students| - 1];
      var last := students[|students| - 1];
      InitLast(students);
      ReportLinesStep(students, courses, conv);
      ReportLinesAreNamedStudents(init, courses, conv);
      FilterMapSnoc(init, last, NamedIn(conv), LinesFor(courses, conv));
    }
  }

  /** One step of ReportLines, stated through Named and LineFor. */
  lemma ReportLinesStep(students: seq<Value>, courses: map<string, string>, conv: Conversions)
    requires students != [] && ReportLines(students, courses, conv).Ok?
    ensures var init := students[..|students| - 1];
            var last := students[|students| - 1];
            ReportLines(init, courses, conv).Ok? &&
            ReportLines(students, courses, conv).value ==
              ReportLines(init, courses, conv).value + (if Named(last, conv) then [LineFor(last, courses, conv)] else [])
  {
  }

  /** Reading the report text back line by line gives the report lines, when no name
      contains a line break; an empty report is the empty text. */
  lemma ReportReadsBack(lines: seq<string>)
    requires forall k :: 0 <= k < |lines| ==> '\n' !in lines[k]
    ensures Lines(ReportText(lines)) == lines
  {
    if lines != [] {
      LinesOfJoined(lines);
    }
  }
}
