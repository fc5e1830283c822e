/** The JSON library store: books with an id, a title and the apprentice they are lent
    to (`prestado_a`, None when the book is in), re-saved after every loan or return. */
module Library {
  import opened Wrappers
  import opened Seqs
  import opened Text
  import opened PyValues

  datatype Book = Book(id: string, title: string, borrower: Option<string>)

  /** The three normalised text fields, one per normaliser of the source. */
  datatype Field = BookId | Title | BorrowerName

  /** Why a library operation raised, with the Python exception class it raises. */
  datatype LibError = NotADict | MissingKey(key: string) | Blank(field: Field) | UnknownBook | AlreadyLent | NotLent
  {
    function Kind(): ExceptionKind
    {
      match this
      case NotADict | MissingKey(_) => TypeError
      case UnknownBook => KeyError
      case _ => ValueError
    }
  }

  predicate ValidText(s: string)
  {
    s != [] && Canonical(s)
  }

  /** What the record validator guarantees of a stored book. */
  predicate ValidBook(b: Book)
  {
    ValidText(b.id) && ValidText(b.title) && (b.borrower.Some? ==> ValidText(b.borrower.value))
  }

  predicate ValidLibrary(books: seq<Book>)
  {
    forall i :: 0 <= i < |books| ==> ValidBook(books[i])
  }

  /** `_normalizar_id`, `_normalizar_titulo` and `_normalizar_nombre` (which differ only
      in their message): whitespace collapsed and trimmed, ValueError when blank. */
  function Normalize(text: string, field: Field): (r: Result<string, LibError>)
    ensures r.Ok? <==> !AllSpace(text)
    ensures r.Ok? ==> ValidText(r.value) && r.value == Collapse(text)
    ensures r.Err? ==> r.error == Blank(field) && r.error.Kind() == ValueError
  {
    var clean := Collapse(text);
    if clean == [] then Err(Blank(field)) else Ok(clean)
  }

  /** Normalised text is a fixed point of the normalisers. */
  lemma NormalizeValid(text: string, field: Field)
    requires ValidText(text)
    ensures Normalize(text, field) == Ok(text)
  {
    CollapseCanonical(text);
  }

  /** `_validar_libro_dict` applied to a decoded JSON value. */
  function ValidateBook(v: Value, conv: Conversions): (r: Result<Book, LibError>)
    ensures r.Ok? ==> ValidBook(r.value)
    ensures !v.DictV? ==> r == Err(NotADict)
    ensures v.DictV? && !HasKey(v.entries, StrV("libro_id")) ==> r == Err(MissingKey("libro_id"))
    ensures v.DictV? && HasKey(v.entries, StrV("libro_id")) && !HasKey(v.entries, StrV("titulo")) ==>
              r == Err(MissingKey("titulo"))
    ensures (v.DictV? && HasKey(v.entries, StrV("libro_id")) && HasKey(v.entries, StrV("titulo")) &&
             !HasKey(v.entries, StrV("prestado_a"))) ==> r == Err(MissingKey("prestado_a"))
    ensures HasBookKeys(v) ==>
              r == BookFields(RawField(v, "libro_id"), RawField(v, "titulo"), RawField(v, "prestado_a"), conv)
    ensures r.Ok? ==> (r.value.borrower.None? <==> Lookup(v.entries, StrV("prestado_a")) == Some(NoneV))
    ensures r.Err? ==> r.error.Kind() != KeyError
  {
    if !v.DictV? then Err(NotADict)
    else if !HasKey(v.entries, StrV("libro_id")) then Err(MissingKey("libro_id"))
    else if !HasKey(v.entries, StrV("titulo")) then Err(MissingKey("titulo"))
    else if !HasKey(v.entries, StrV("prestado_a")) then Err(MissingKey("prestado_a"))
    else
      BookFields(Lookup(v.entries, StrV("libro_id")).value, Lookup(v.entries, StrV("titulo")).value,
                 Lookup(v.entries, StrV("prestado_a")).value, conv)
  }

  /** A dict holding the three keys a book needs. */
  predicate HasBookKeys(v: Value)
  {
    v.DictV? && HasKey(v.entries, StrV("libro_id")) && HasKey(v.entries, StrV("titulo")) &&
    HasKey(v.entries, StrV("prestado_a"))
  }

  /** `libro[key]` for a key the dict holds. */
  function RawField(v: Value, key: string): Value
    requires v.DictV? && HasKey(v.entries, StrV(key))
  {
    Lookup(v.entries, StrV(key)).value
  }

  /** The field checks of `_validar_libro_dict` once the three keys are known present:
      the id, then the title, then a borrower that is not None must be non-blank, and
      each is stored collapsed. */
  function BookFields(idRaw: Value, titleRaw: Value, raw: Value, conv: Conversions): (r: Result<Book, LibError>)
    ensures r.Ok? ==> ValidBook(r.value) && (r.value.borrower.None? <==> raw == NoneV)
    ensures r.Err? ==> r.error.Blank?
    ensures r.Ok? <==> !AllSpace(ToStr(idRaw, conv)) && !AllSpace(ToStr(titleRaw, conv)) &&
                       (raw != NoneV ==> !AllSpace(ToStr(raw, conv)))
    ensures AllSpace(ToStr(idRaw, conv)) ==> r == Err(Blank(BookId))
    ensures !AllSpace(ToStr(idRaw, conv)) && AllSpace(ToStr(titleRaw, conv)) ==> r == Err(Blank(Title))
    ensures r.Ok? ==> r.value.id == Collapse(ToStr(idRaw, conv)) && r.value.title == Collapse(ToStr(titleRaw, conv)) &&
                      (raw != NoneV ==> r.value.borrower == Some(Collapse(ToStr(raw, conv))))
  {
    match Normalize(ToStr(idRaw, conv), BookId)
    case Err(e) => Err(e)
    case Ok(id) =>
      match Normalize(ToStr(titleRaw, conv), Title)
      case Err(e) => Err(e)
      case Ok(title) =>
        if raw == NoneV then Ok(Book(id, title, None))
        else match Normalize(ToStr(raw, conv), BorrowerName)
          case Err(e) => Err(e)
          case Ok(who) => Ok(Book(id, title, Some(who)))
  }

  /** `_validar_libro_dict` applied to a book held in memory. A valid book comes back
      unchanged. */
  function NormalizeBook(b: Book): (r: Result<Book, LibError>)
    ensures r.Ok? <==> !AllSpace(b.id) && !AllSpace(b.title) && (b.borrower.Some? ==> !AllSpace(b.borrower.value))
    ensures r.Ok? ==> ValidBook(r.value) && r.value.borrower.Some? == b.borrower.Some?
    ensures ValidBook(b) ==> r == Ok(b)
  {
    assert ValidBook(b) ==> Normalize(b.id, BookId) == Ok(b.id) && Normalize(b.title, Title) == Ok(b.title) by {
      if ValidBook(b) { NormalizeValid(b.id, BookId); NormalizeValid(b.title, Title); }
    }
    assert ValidBook(b) && b.borrower.Some? ==> Normalize(b.borrower.value, BorrowerName) == Ok(b.borrower.value) by {
      if ValidBook(b) && b.borrower.Some? { NormalizeValid(b.borrower.value, BorrowerName); }
    }
    match Normalize(b.id, BookId)
    case Err(e) => Err(e)
    case Ok(id) =>
      match Normalize(b.title, Title)
      case Err(e) => Err(e)
      case Ok(title) =>
        match b.borrower
        case None => Ok(Book(id, title, None))
        case Some(who) =>
          match Normalize(who, BorrowerName)
          case Err(e) => Err(e)
          case Ok(w) => Ok(Book(id, title, Some(w)))
  }

  /** The JSON object `guardar_biblioteca` writes for a book. */
  function Encode(b: Book): Value
  {
    DictV([(StrV("libro_id"), StrV(b.id)), (StrV("titulo"), StrV(b.title)),
           (StrV("prestado_a"), if b.borrower.Some? then StrV(b.borrower.value) else NoneV)])
  }

  /** The JSON object written for a book reads back as normalising the in-memory book
      does, whatever the conversions are. */
  lemma ValidateEncoded(b: Book, conv: Conversions)
    ensures ValidateBook(Encode(b), conv) == NormalizeBook(b)
  {
    var raw := if b.borrower.Some? then StrV(b.borrower.value) else NoneV;
    LookupThree(StrV("libro_id"), StrV(b.id), StrV("titulo"), StrV(b.title), StrV("prestado_a"), raw);
    assert ValidateBook(Encode(b), conv) == BookFields(StrV(b.id), StrV(b.title), raw, conv);
    BookFieldsOfBook(b, raw, conv);
  }

  lemma BookFieldsOfBook(b: Book, raw: Value, conv: Conversions)
    requires raw == if b.borrower.Some? then StrV(b.borrower.value) else NoneV
    ensures BookFields(StrV(b.id), StrV(b.title), raw, conv) == NormalizeBook(b)
  {
    assert ToStr(StrV(b.id), conv) == b.id && ToStr(StrV(b.title), conv) == b.title;
    if b.borrower.Some? {
      assert raw != NoneV && ToStr(raw, conv) == b.borrower.value;
    }
  }

  function Validator(conv: Conversions): Value -> Result<Book, LibError>
  {
    v => ValidateBook(v, conv)
  }

  /** `cargar_biblioteca` after decoding (an empty file reads as "[]"). */
  function LoadSpec(f: JsonFile, conv: Conversions): (r: seq<Book>)
    ensures ValidLibrary(r)
    ensures !(f.Decoded? && f.content.ListV?) ==> r == []
  {
    if f.Decoded? && f.content.ListV? then
      var r := KeepOk(f.content.items, Validator(conv));
      assert ValidLibrary(r) by {
        forall i | 0 <= i < |r| ensures ValidBook(r[i]) {
          var j :| 0 <= j < |f.content.items| && Validator(conv)(f.content.items[j]) == Ok(r[i]);
        }
      }
      r
    else []
  }

  /** The loading loop of `cargar_biblioteca`: valid entries are kept in order, entries
      that raise are skipped. */
  method LoadLibrary(f: JsonFile, conv: Conversions) returns (bs: seq<Book>)
    ensures bs == LoadSpec(f, conv)
    ensures ValidLibrary(bs)
  {
    if !(f.Decoded? && f.content.ListV?) {
      return [];
    }
    var items := f.content.items;
    bs := [];
    var i := 0;
    while i < |items|
      invariant 0 <= i <= |items|
      invariant bs == KeepOk(items[..i], Validator(conv))
    {
      TakeSnoc(items, i);
      KeepOkSnoc(items[..i], items[i], Validator(conv));
      var r := ValidateBook(items[i], conv);
      if r.Ok? {
        bs := bs + [r.value];
      }
      i := i + 1;
    }
    assert items[..i] == items;
  }

  /** `guardar_biblioteca`: every book is validated before the file is opened. */
  function SaveSpec(books: seq<Book>): Result<JsonFile, LibError>
  {
    match AllOk(books, NormalizeBook)
    case Err(e) => Err(e)
    case Ok(ns) => Ok(Decoded(ListV(Map(ns, Encode))))
  }

  /** A valid library always saves, and loading the file back gives the same books,
      loan state included. */
  lemma SaveThenLoad(books: seq<Book>, conv: Conversions)
    requires ValidLibrary(books)
    ensures SaveSpec(books).Ok?
    ensures LoadSpec(SaveSpec(books).value, conv) == books
  {
    AllOkAllValues(books, NormalizeBook, books);
    var enc := Map(books, Encode);
    forall i | 0 <= i < |enc| ensures Validator(conv)(enc[i]) == Ok(books[i]) {
      ValidateEncoded(books[i], conv);
    }
    KeepOkAllValues(enc, Validator(conv), books);
  }

  /** First index whose lower-cased id equals `key`. */
  function IndexOfId(books: seq<Book>, key: string): (r: Option<nat>)
    ensures r.Some? ==> r.value < |books| && Lower(books[r.value].id) == key &&
                        forall j :: 0 <= j < r.value ==> Lower(books[j].id) != key
    ensures r.None? ==> forall j :: 0 <= j < |books| ==> Lower(books[j].id) != key
  {
    if books == [] then None
    else if Lower(books[0].id) == key then Some(0)
    else match IndexOfId(books[1..], key)
      case None => None
      case Some(k) => Some(k + 1)
  }

  /** Lists with the same ids in the same places answer every lookup alike. */
  lemma {:induction false} IndexOfSameIds(books: seq<Book>, other: seq<Book>, key: string)
    requires |books| == |other|
    requires forall j :: 0 <= j < |books| ==> books[j].id == other[j].id
    ensures IndexOfId(books, key) == IndexOfId(other, key)
  {
    if books != [] {
      IndexOfSameIds(books[1..], other[1..], key);
    }
  }

  /** `_buscar_indice`: the id is normalised (ValueError when blank) and compared
      case-insensitively. */
  function LookupSpec(books: seq<Book>, id: string): Result<Option<nat>, LibError>
  {
    match Normalize(id, BookId)
    case Err(e) => Err(e)
    case Ok(n) => Ok(IndexOfId(books, Lower(n)))
  }

  /** The search loop of `_buscar_indice`. */
  method FindIndex(books: seq<Book>, id: string) returns (r: Result<Option<nat>, LibError>)
    ensures r == LookupSpec(books, id)
    ensures r.Ok? && r.value.Some? ==> r.value.value < |books|
  {
    var n := Normalize(id, BookId);
    if n.Err? {
      return Err(n.error);
    }
    var key := Lower(n.value);
    var i := 0;
    while i < |books|
      invariant 0 <= i <= |books|
      invariant forall j :: 0 <= j < i ==> Lower(books[j].id) != key
    {
      if Lower(books[i].id) == key {
        var spec := IndexOfId(books, key);
        assert spec == Some(i) by {
          if spec.None? { assert false; }
          else if spec.value < i { assert false; }
          else if spec.value > i { assert false; }
        }
        return Ok(Some(i));
      }
      i := i + 1;
    }
    return Ok(None);
  }

  /** The in-memory effect of `prestar_libro` and the book it returns. The lookup
      comes first, then the borrower's name, then the loan state. */
  function BorrowSpec(books: seq<Book>, id: string, who: string): Result<(seq<Book>, Book), LibError>
  {
    match LookupSpec(books, id)
    case Err(e) => Err(e)
    case Ok(None) => Err(UnknownBook)
    case Ok(Some(i)) =>
      match Normalize(who, BorrowerName)
      case Err(e) => Err(e)
      case Ok(name) =>
        if books[i].borrower.Some? then Err(AlreadyLent)
        else
          var b := books[i].(borrower := Some(name));
          Ok((books[i := b], b))
  }

  /** The in-memory effect of `devolver_libro` and the book it returns. */
  function ReturnSpec(books: seq<Book>, id: string): Result<(seq<Book>, Book), LibError>
  {
    match LookupSpec(books, id)
    case Err(e) => Err(e)
    case Ok(None) => Err(UnknownBook)
    case Ok(Some(i)) =>
      if books[i].borrower.None? then Err(NotLent)
      else
        var b := books[i].(borrower := None);
        Ok((books[i := b], b))
  }

  /** The ways `prestar_libro` raises: an unknown id (KeyError), a blank borrower and
      a book already lent (ValueError). */
  lemma BorrowErrors(books: seq<Book>, id: string, who: string)
    ensures AllSpace(id) ==> BorrowSpec(books, id, who) == Err(Blank(BookId))
    ensures !AllSpace(id) && IndexOfId(books, Lower(Collapse(id))).None? ==>
              BorrowSpec(books, id, who) == Err(UnknownBook) && UnknownBook.Kind() == KeyError
    ensures !AllSpace(id) && IndexOfId(books, Lower(Collapse(id))).Some? && AllSpace(who) ==>
              BorrowSpec(books, id, who) == Err(Blank(BorrowerName))
    ensures var k := IndexOfId(books, Lower(Collapse(id)));
            !AllSpace(id) && k.Some? && !AllSpace(who) && books[k.value].borrower.Some? ==>
              BorrowSpec(books, id, who) == Err(AlreadyLent) && AlreadyLent.Kind() == ValueError
    ensures BorrowSpec(books, id, who).Ok? <==>
              !AllSpace(id) && IndexOfId(books, Lower(Collapse(id))).Some? && !AllSpace(who) &&
              books[IndexOfId(books, Lower(Collapse(id))).value].borrower.None?
  {
  }

  /** The ways `devolver_libro` raises: a blank id (ValueError), an unknown id
      (KeyError) and a book that is in (ValueError). */
  lemma ReturnErrors(books: seq<Book>, id: string)
    ensures AllSpace(id) ==> ReturnSpec(books, id) == Err(Blank(BookId))
    ensures !AllSpace(id) && IndexOfId(books, Lower(Collapse(id))).None? ==> ReturnSpec(books, id) == Err(UnknownBook)
    ensures ReturnSpec(books, id).Ok? <==>
              !AllSpace(id) && IndexOfId(books, Lower(Collapse(id))).Some? &&
              books[IndexOfId(books, Lower(Collapse(id))).value].borrower.Some?
    ensures ReturnSpec(books, id).Err? ==> ReturnSpec(books, id).error in {Blank(BookId), UnknownBook, NotLent}
  {
  }

  /** A successful loan sets the borrower of exactly the matched book to the normalised
      name; its id and title and every other book are unchanged. */
  lemma BorrowEffect(books: seq<Book>, id: string, who: string)
    requires BorrowSpec(books, id, who).Ok?
    ensures IndexOfId(books, Lower(Collapse(id))).Some?
    ensures var i := IndexOfId(books, Lower(Collapse(id))).value;
            var (ns, b) := BorrowSpec(books, id, who).value;
            |ns| == |books| && i < |books| && ns[i] == b && books[i].borrower.None? &&
            b == Book(books[i].id, books[i].title, Some(Collapse(who))) &&
            (forall j :: 0 <= j < |books| && j != i ==> ns[j] == books[j])
  {
    assert LookupSpec(books, id) == Ok(IndexOfId(books, Lower(Collapse(id))));
    var i := LookupSpec(books, id).value.value;
    assert BorrowSpec(books, id, who).value.0[i] == BorrowSpec(books, id, who).value.1;
  }

  /** A successful return clears the borrower of exactly the matched book. */
  lemma ReturnEffect(books: seq<Book>, id: string)
    requires ReturnSpec(books, id).Ok?
    ensures IndexOfId(books, Lower(Collapse(id))).Some?
    ensures var i := IndexOfId(books, Lower(Collapse(id))).value;
            var (ns, b) := ReturnSpec(books, id).value;
            |ns| == |books| && i < |books| && ns[i] == b && books[i].borrower.Some? &&
            b == Book(books[i].id, books[i].title, None) &&
            (forall j :: 0 <= j < |books| && j != i ==> ns[j] == books[j])
  {
    assert LookupSpec(books, id) == Ok(IndexOfId(books, Lower(Collapse(id))));
    var i := LookupSpec(books, id).value.value;
    assert ReturnSpec(books, id).value.0[i] == ReturnSpec(books, id).value.1;
  }

  /** The loan flag is a two-state machine: a book just lent cannot be lent again, and
      returning it restores the list exactly as it was before the loan. */
  lemma BorrowThenReturn(books: seq<Book>, id: string, who: string, other: string)
    requires BorrowSpec(books, id, who).Ok?
    ensures var ns := BorrowSpec(books, id, who).value.0;
            BorrowSpec(ns, id, other).Err? &&
            ReturnSpec(ns, id).Ok? && ReturnSpec(ns, id).value.0 == books
  {
    var ns := BorrowSpec(books, id, who).value.0;
    var i := LookupSpec(books, id).value.value;
    IndexOfSameIds(books, ns, Lower(Collapse(id)));
    assert ReturnSpec(ns, id).value.0 == ns[i := ns[i].(borrower := None)];
    assert ns[i := ns[i].(borrower := None)] == books;
  }

  /** Returning a book that is in fails, and so does returning twice. */
  lemma ReturnThenReturn(books: seq<Book>, id: string)
    requires ReturnSpec(books, id).Ok?
    ensures ReturnSpec(ReturnSpec(books, id).value.0, id) == Err(NotLent)
  {
    var ns := ReturnSpec(books, id).value.0;
    IndexOfSameIds(books, ns, Lower(Collapse(id)));
  }

  /** Loans and returns keep a valid library valid. */
  lemma BorrowReturnPreserveValid(books: seq<Book>, id: string, who: string)
    requires ValidLibrary(books)
    ensures BorrowSpec(books, id, who).Ok? ==> ValidLibrary(BorrowSpec(books, id, who).value.0)
    ensures ReturnSpec(books, id).Ok? ==> ValidLibrary(ReturnSpec(books, id).value.0)
  {
    var found := LookupSpec(books, id);
    if found.Ok? && found.value.Some? {
      var i := found.value.value;
      var name := Normalize(who, BorrowerName);
      if name.Ok? && books[i].borrower.None? {
        ReplacePreservesValid(books, i, books[i].(borrower := Some(name.value)));
      }
      if books[i].borrower.Some? {
        ReplacePreservesValid(books, i, books[i].(borrower := None));
      }
    }
  }

  lemma ReplacePreservesValid(books: seq<Book>, i: nat, b: Book)
    requires ValidLibrary(books) && i < |books| && ValidBook(b)
    ensures ValidLibrary(books[i := b])
  {
  }

  predicate TitleMatches(b: Book, query: string)
  {
    Contains(Lower(b.title), query)
  }

  /** The filter's lambda for a folded query `q`. */
  function MatchesQuery(q: string): Book -> bool
  {
    (b: Book) => TitleMatches(b, q)
  }

  /** `buscar_libro`: the query is collapsed and case-folded; a blank query finds
      nothing; otherwise the books whose case-folded title contains it, in order. */
  function Search(books: seq<Book>, query: string): (r: seq<Book>)
    ensures AllSpace(query) ==> r == []
    ensures IsSubseq(r, books)
    ensures !AllSpace(query) ==> |r| == Count(books, MatchesQuery(Lower(Collapse(query))))
    ensures forall b :: b in r <==> !AllSpace(query) && b in books && TitleMatches(b, Lower(Collapse(query)))
  {
    var q := Lower(Collapse(query));
    if q == [] then []
    else
      var r := Filter(books, MatchesQuery(q));
      forall b ensures b in r <==> b in books && TitleMatches(b, q) {
        FilterMembership(books, MatchesQuery(q), b);
      }
      r
  }

  /** The filter's lambda: `prestado_a` is not None and not blank once stripped. */
  function IsLent(b: Book): bool
  {
    b.borrower.Some? && Strip(b.borrower.value) != []
  }

  /** `ver_libros_prestados`: the books whose borrower is set and not blank, in order. */
  function OnLoan(books: seq<Book>): (r: seq<Book>)
    ensures IsSubseq(r, books)
    ensures |r| == Count(books, IsLent)
    ensures forall b :: b in r <==> b in books && b.borrower.Some? && !AllSpace(b.borrower.value)
  {
    var r := Filter(books, IsLent);
    forall b ensures b in r <==> b in books && b.borrower.Some? && !AllSpace(b.borrower.value) {
      FilterMembership(books, IsLent, b);
    }
    r
  }

  /** In a valid library a loan puts the book on the loan list and a return takes it off. */
  lemma LoanListFollowsLoans(books: seq<Book>, id: string, who: string)
    requires ValidLibrary(books)
    ensures BorrowSpec(books, id, who).Ok? ==>
              BorrowSpec(books, id, who).value.1 in OnLoan(BorrowSpec(books, id, who).value.0)
    ensures ReturnSpec(books, id).Ok? ==>
              ReturnSpec(books, id).value.1 !in OnLoan(ReturnSpec(books, id).value.0)
  {
    if BorrowSpec(books, id, who).Ok? {
      BorrowEffect(books, id, who);
    }
    if ReturnSpec(books, id).Ok? {
      ReturnEffect(books, id);
    }
  }

  /** The store: the list `cargar_biblioteca` returned, and the file it writes. */
  class Store {
    var books: seq<Book>
    var file: JsonFile

    constructor (f: JsonFile, conv: Conversions)
      ensures books == LoadSpec(f, conv) && file == f
      ensures ValidLibrary(books)
    {
      var bs := LoadLibrary(f, conv);
      books := bs;
      file := f;
    }

    /** `guardar_biblioteca(self.books)` */
    method Save() returns (r: Outcome<LibError>)
      modifies this
      ensures books == old(books)
      ensures SaveSpec(books).Ok? ==> r == Done && file == SaveSpec(books).value
      ensures SaveSpec(books).Err? ==> r == Fail(SaveSpec(books).error) && file == old(file)
    {
      match SaveSpec(books)
      case Ok(f) =>
        file := f;
        r := Done;
      case Err(e) =>
        r := Fail(e);
    }

    /** `prestar_libro`: check, set `prestado_a` in place, then save. */
    method Borrow(id: string, who: string) returns (r: Result<Book, LibError>)
      modifies this
      ensures BorrowSpec(old(books), id, who).Err? ==>
                books == old(books) && file == old(file) && r == Err(BorrowSpec(old(books), id, who).error)
      ensures BorrowSpec(old(books), id, who).Ok? ==>
                var (ns, b) := BorrowSpec(old(books), id, who).value;
                books == ns &&
                (SaveSpec(ns).Ok? ==> file == SaveSpec(ns).value && r == Ok(b)) &&
                (SaveSpec(ns).Err? ==> file == old(file) && r == Err(SaveSpec(ns).error))
    {
      var found := FindIndex(books, id);
      if found.Err? {
        return Err(found.error);
      }
      if found.value.None? {
        return Err(UnknownBook);
      }
      var i := found.value.value;
      var name := Normalize(who, BorrowerName);
      if name.Err? {
        return Err(name.error);
      }
      if books[i].borrower.Some? {
        return Err(AlreadyLent);
      }
      var b := books[i].(borrower := Some(name.value));
      books := books[i := b];
      var saved := Save();
      if saved.Fail? {
        return Err(saved.error);
      }
      return Ok(b);
    }

    /** `devolver_libro`: check, clear `prestado_a` in place, then save. */
    method Return(id: string) returns (r: Result<Book, LibError>)
      modifies this
      ensures ReturnSpec(old(books), id).Err? ==>
                books == old(books) && file == old(file) && r == Err(ReturnSpec(old(books), id).error)
      ensures ReturnSpec(old(books), id).Ok? ==>
                var (ns, b) := ReturnSpec(old(books), id).value;
                books == ns &&
                (SaveSpec(ns).Ok? ==> file == SaveSpec(ns).value && r == Ok(b)) &&
                (SaveSpec(ns).Err? ==> file == old(file) && r == Err(SaveSpec(ns).error))
    {
      var found := FindIndex(books, id);
      if found.Err? {
        return Err(found.error);
      }
      if found.value.None? {
        return Err(UnknownBook);
      }
      var i := found.value.value;
      if books[i].borrower.None? {
        return Err(NotLent);
      }
      var b := books[i].(borrower := None);
      books := books[i := b];
      var saved := Save();
      if saved.Fail? {
        return Err(saved.error);
      }
      return Ok(b);
    }
  }
}
