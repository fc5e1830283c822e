/** The JSON inventory store: products with a name, a unit price and a stock count,
    kept in a list in memory and re-saved to a JSON file after every change. */
module Inventory {
  import opened Wrappers
  import opened Seqs
  import opened Text
  import opened PyValues

  /** A product record as `_validar_producto_dict` returns it. */
  datatype Product = Product(name: string, price: real, stock: int)

  /** Why an inventory operation raised, with the Python exception class it raises. */
  datatype InvError =
    | NotADict | MissingKey(key: string) | BlankName
    | PriceNotNumeric | StockNotInteger | NegativePrice | NegativeStock
    | NonPositiveQuantity | UnknownProduct | InsufficientStock
  {
    function Kind(): ExceptionKind
    {
      match this
      case NotADict | MissingKey(_) | PriceNotNumeric | StockNotInteger => TypeError
      case UnknownProduct => KeyError
      case _ => ValueError
    }
  }

  /** What the normaliser guarantees of a stored product. */
  predicate ValidProduct(p: Product)
  {
    p.name != [] && Canonical(p.name) && p.price >= 0.0 && p.stock >= 0
  }

  predicate ValidInventory(items: seq<Product>)
  {
    forall i :: 0 <= i < |items| ==> ValidProduct(items[i])
  }

  /** `_normalizar_nombre`: whitespace collapsed and trimmed; a blank name raises
      ValueError. Normalising a normalised name changes nothing (NormalizeNameIdempotent). */
  function NormalizeName(name: string): (r: Result<string, InvError>)
    ensures r.Ok? <==> !AllSpace(name)
    ensures r.Ok? ==> r.value != [] && Canonical(r.value) && r.value == Collapse(name)
    ensures r.Err? ==> r.error == BlankName && r.error.Kind() == ValueError
  {
    var clean := Collapse(name);
    if clean == [] then Err(BlankName) else Ok(clean)
  }

  lemma NormalizeNameIdempotent(name: string)
    requires NormalizeName(name).Ok?
    ensures NormalizeName(NormalizeName(name).value) == NormalizeName(name)
  {
    CollapseIdempotent(name);
  }

  /** The JSON object `guardar_inventario` writes for a product. */
  function Encode(p: Product): Value
  {
    DictV([(StrV("nombre"), StrV(p.name)), (StrV("precio"), FloatV(p.price)), (StrV("stock"), IntV(p.stock))])
  }

  /** A dict holding the three keys a product needs. */
  predicate HasProductKeys(v: Value)
  {
    v.DictV? && HasKey(v.entries, StrV("nombre")) && HasKey(v.entries, StrV("precio")) &&
    HasKey(v.entries, StrV("stock"))
  }

  /** `producto[key]` for a key the dict holds. */
  function RawField(v: Value, key: string): Value
    requires v.DictV? && HasKey(v.entries, StrV(key))
  {
    Lookup(v.entries, StrV(key)).value
  }

  /** `_validar_producto_dict` applied to a decoded JSON value: the checks run in the
      source's order (dict, the three keys, name, numeric conversions, signs). */
  function ValidateProduct(v: Value, conv: Conversions): (r: Result<Product, InvError>)
    ensures r.Ok? ==> ValidProduct(r.value)
    ensures !v.DictV? ==> r == Err(NotADict)
    ensures v.DictV? && !HasKey(v.entries, StrV("nombre")) ==> r == Err(MissingKey("nombre"))
    ensures v.DictV? && HasKey(v.entries, StrV("nombre")) && !HasKey(v.entries, StrV("precio")) ==>
              r == Err(MissingKey("precio"))
    ensures (v.DictV? && HasKey(v.entries, StrV("nombre")) && HasKey(v.entries, StrV("precio")) &&
             !HasKey(v.entries, StrV("stock"))) ==> r == Err(MissingKey("stock"))
    ensures HasProductKeys(v) ==>
              var name, price, stock := RawField(v, "nombre"), RawField(v, "precio"), RawField(v, "stock");
              (AllSpace(ToStr(name, conv)) ==> r == Err(BlankName)) &&
              (!AllSpace(ToStr(name, conv)) && ToFloat(price, conv).None? ==> r == Err(PriceNotNumeric)) &&
              (!AllSpace(ToStr(name, conv)) && ToFloat(price, conv).Some? && ToInt(stock, conv).None? ==>
                 r == Err(StockNotInteger)) &&
              (!AllSpace(ToStr(name, conv)) && ToFloat(price, conv).Some? && ToInt(stock, conv).Some? ==>
                 (ToFloat(price, conv).value < 0.0 ==> r == Err(NegativePrice)) &&
                 (ToFloat(price, conv).value >= 0.0 && ToInt(stock, conv).value < 0 ==> r == Err(NegativeStock)) &&
                 (ToFloat(price, conv).value >= 0.0 && ToInt(stock, conv).value >= 0 ==>
                    r == Ok(Product(Collapse(ToStr(name, conv)), ToFloat(price, conv).value, ToInt(stock, conv).value))))
    ensures r.Err? ==>
              r.error.MissingKey? ||
              r.error in {NotADict, BlankName, PriceNotNumeric, StockNotInteger, NegativePrice, NegativeStock}
  {
    if !v.DictV? then Err(NotADict)
    else if !HasKey(v.entries, StrV("nombre")) then Err(MissingKey("nombre"))
    else if !HasKey(v.entries, StrV("precio")) then Err(MissingKey("precio"))
    else if !HasKey(v.entries, StrV("stock")) then Err(MissingKey("stock"))
    else
      match NormalizeName(ToStr(Lookup(v.entries, StrV("nombre")).value, conv))
      case Err(e) => Err(e)
      case Ok(name) =>
        match ToFloat(Lookup(v.entries, StrV("precio")).value, conv)
        case None => Err(PriceNotNumeric)
        case Some(price) =>
          match ToInt(Lookup(v.entries, StrV("stock")).value, conv)
          case None => Err(StockNotInteger)
          case Some(stock) =>
            if price < 0.0 then Err(NegativePrice)
            else if stock < 0 then Err(NegativeStock)
            else Ok(Product(name, price, stock))
  }

  /** `_validar_producto_dict` applied to a product already held in memory: only the
      name and the two signs can fail. A valid product comes back unchanged. */
  function NormalizeRecord(p: Product): (r: Result<Product, InvError>)
    ensures r.Ok? <==> !AllSpace(p.name) && p.price >= 0.0 && p.stock >= 0
    ensures r.Ok? ==> ValidProduct(r.value) && r.value.price == p.price && r.value.stock == p.stock
    ensures ValidProduct(p) ==> r == Ok(p)
    ensures r.Err? ==> r.error.Kind() == ValueError
  {
    assert ValidProduct(p) ==> Collapse(p.name) == p.name by {
      if ValidProduct(p) { CollapseCanonical(p.name); }
    }
    match NormalizeName(p.name)
    case Err(e) => Err(e)
    case Ok(name) =>
      if p.price < 0.0 then Err(NegativePrice)
      else if p.stock < 0 then Err(NegativeStock)
      else Ok(Product(name, p.price, p.stock))
  }

  /** The JSON object written for a product reads back, whatever the number parsers
      are, exactly as normalising the in-memory record does. */
  lemma ValidateEncoded(p: Product, conv: Conversions)
    ensures ValidateProduct(Encode(p), conv) == NormalizeRecord(p)
  {
    LookupThree(StrV("nombre"), StrV(p.name), StrV("precio"), FloatV(p.price), StrV("stock"), IntV(p.stock));
    assert ToStr(StrV(p.name), conv) == p.name;
    assert ToFloat(FloatV(p.price), conv) == Some(p.price);
    assert ToInt(IntV(p.stock), conv) == Some(p.stock);
  }

  function Validator(conv: Conversions): Value -> Result<Product, InvError>
  {
    v => ValidateProduct(v, conv)
  }

  /** `cargar_inventario` after decoding: a missing, empty or undecodable file and a
      top level that is not a list give []; otherwise the entries that validate, in order. */
  function LoadSpec(f: JsonFile, conv: Conversions): (r: seq<Product>)
    ensures ValidInventory(r)
    ensures !(f.Decoded? && f.content.ListV?) ==> r == []
  {
    if f.Decoded? && f.content.ListV? then
      var r := KeepOk(f.content.items, Validator(conv));
      assert ValidInventory(r) by {
        forall i | 0 <= i < |r| ensures ValidProduct(r[i]) {
          var j :| 0 <= j < |f.content.items| && Validator(conv)(f.content.items[j]) == Ok(r[i]);
        }
      }
      r
    else []
  }

  /** The loading loop of `cargar_inventario`: each entry is validated and appended,
      entries that raise are skipped. */
  method LoadInventory(f: JsonFile, conv: Conversions) returns (ps: seq<Product>)
    ensures ps == LoadSpec(f, conv)
    ensures ValidInventory(ps)
  {
    if !(f.Decoded? && f.content.ListV?) {
      return [];
    }
    var items := f.content.items;
    ps := [];
    var i := 0;
    while i < |items|
      invariant 0 <= i <= |items|
      invariant ps == KeepOk(items[..i], Validator(conv))
    {
      TakeSnoc(items, i);
      KeepOkSnoc(items[..i], items[i], Validator(conv));
      var r := ValidateProduct(items[i], conv);
      if r.Ok? {
        ps := ps + [r.value];
      }
      i := i + 1;
    }
    assert items[..i] == items;
  }

  /** `guardar_inventario`: every record is normalised first; the first one that
      raises aborts the save before the file is opened. */
  function SaveSpec(items: seq<Product>): Result<JsonFile, InvError>
  {
    match AllOk(items, NormalizeRecord)
    case Err(e) => Err(e)
    case Ok(ns) => Ok(Decoded(ListV(Map(ns, Encode))))
  }

  /** Saving a valid inventory always succeeds, and loading the file back returns the
      same products in the same order, whatever the number parsers are. */
  lemma {:induction false} SaveThenLoad(items: seq<Product>, conv: Conversions)
    requires ValidInventory(items)
    ensures SaveSpec(items).Ok?
    ensures LoadSpec(SaveSpec(items).value, conv) == items
  {
    AllOkAllValues(items, NormalizeRecord, items);
    var enc := Map(items, Encode);
    forall i | 0 <= i < |enc| ensures Validator(conv)(enc[i]) == Ok(items[i]) {
      ValidateEncoded(items[i], conv);
    }
    KeepOkAllValues(enc, Validator(conv), items);
  }

  /** Saving an inventory that holds a blank name or a negative number raises and
      leaves the file as it was (the store's Save keeps `file` in that case). */
  lemma SaveRejectsInvalid(items: seq<Product>, k: nat)
    requires k < |items| && !(!AllSpace(items[k].name) && items[k].price >= 0.0 && items[k].stock >= 0)
    ensures SaveSpec(items).Err?
    ensures SaveSpec(items).error.Kind() == ValueError
  {
    assert NormalizeRecord(items[k]).Err?;
    var r := AllOk(items, NormalizeRecord);
    assert r.Err?;
    var j :| 0 <= j < |items| && NormalizeRecord(items[j]) == Err(r.error);
    assert SaveSpec(items) == Err(r.error);
  }

  /** First index whose lower-cased name equals `key`. */
  function IndexOfName(items: seq<Product>, key: string): (r: Option<nat>)
    ensures r.Some? ==> r.value < |items| && Lower(items[r.value].name) == key &&
                        forall j :: 0 <= j < r.value ==> Lower(items[j].name) != key
    ensures r.None? ==> forall j :: 0 <= j < |items| ==> Lower(items[j].name) != key
  {
    if items == [] then None
    else if Lower(items[0].name) == key then Some(0)
    else match IndexOfName(items[1..], key)
      case None => None
      case Some(k) => Some(k + 1)
  }

  /** `_buscar_indice`: the target is normalised (a blank one raises ValueError) and
      lower-cased; the first product whose lower-cased name equals it is found. */
  function LookupSpec(items: seq<Product>, target: string): Result<Option<nat>, InvError>
  {
    match NormalizeName(target)
    case Err(e) => Err(e)
    case Ok(n) => Ok(IndexOfName(items, Lower(n)))
  }

  /** The search loop of `_buscar_indice`. */
  method FindIndex(items: seq<Product>, target: string) returns (r: Result<Option<nat>, InvError>)
    ensures r == LookupSpec(items, target)
    ensures r.Ok? && r.value.Some? ==> r.value.value < |items|
    ensures r.Err? <==> AllSpace(target)
  {
    var n := NormalizeName(target);
    if n.Err? {
      return Err(n.error);
    }
    var key := Lower(n.value);
    var i := 0;
    while i < |items|
      invariant 0 <= i <= |items|
      invariant forall j :: 0 <= j < i ==> Lower(items[j].name) != key
    {
      if Lower(items[i].name) == key {
        var spec := IndexOfName(items, key);
        assert spec == Some(i) by {
          if spec.None? { assert false; }
          else if spec.value < i { assert false; }
          else if spec.value > i { assert false; }
        }
        return Ok(Some(i));
      }
      i := i + 1;
    }
    return Ok(None);
  }

  /** The in-memory effect of `agregar_producto` and the product it returns: an
      unknown name is appended; a known one (first case-insensitive match) gets the new
      price and its stock increased, keeping its stored spelling. */
  function AddSpec(items: seq<Product>, name: string, price: real, stock: int): Result<(seq<Product>, Product), InvError>
  {
    match NormalizeName(name)
    case Err(e) => Err(e)
    case Ok(n) =>
      if price < 0.0 then Err(NegativePrice)
      else if stock < 0 then Err(NegativeStock)
      else match LookupSpec(items, n)
        case Err(e) => Err(e)
        case Ok(found) => Ok(Upsert(items, n, price, stock, found))
  }

  /** The update `agregar_producto` makes once the name is looked up: a new product at
      the end, or the found one with the new price and its stock raised. */
  function Upsert(items: seq<Product>, n: string, price: real, stock: int, found: Option<nat>): (seq<Product>, Product)
    requires found.Some? ==> found.value < |items|
  {
    match found
    case None => (items + [Product(n, price, stock)], Product(n, price, stock))
    case Some(i) =>
      var p := Product(items[i].name, price, items[i].stock + stock);
      (items[i := p], p)
  }

  lemma UpsertCases(items: seq<Product>, n: string, price: real, stock: int, found: Option<nat>)
    requires found.Some? ==> found.value < |items|
    ensures found.None? ==> Upsert(items, n, price, stock, found) == (items + [Product(n, price, stock)], Product(n, price, stock))
    ensures found.Some? ==>
              var p := Product(items[found.value].name, price, items[found.value].stock + stock);
              Upsert(items, n, price, stock, found) == (items[found.value := p], p)
  {
  }

  /** The three ways `agregar_producto` raises, each before the list is touched. */
  lemma AddErrors(items: seq<Product>, name: string, price: real, stock: int)
    ensures AllSpace(name) ==> AddSpec(items, name, price, stock) == Err(BlankName)
    ensures !AllSpace(name) && price < 0.0 ==> AddSpec(items, name, price, stock) == Err(NegativePrice)
    ensures !AllSpace(name) && price >= 0.0 && stock < 0 ==> AddSpec(items, name, price, stock) == Err(NegativeStock)
    ensures !AllSpace(name) && price >= 0.0 && stock >= 0 ==> AddSpec(items, name, price, stock).Ok?
  {
    if !AllSpace(name) {
      NormalizeNameIdempotent(name);
    }
  }

  /** A name not yet present (ignoring case) is appended as one new normalised record;
      the existing records stay as they were. */
  lemma {:induction false} AddNew(items: seq<Product>, name: string, price: real, stock: int)
    requires !AllSpace(name) && price >= 0.0 && stock >= 0
    requires forall j :: 0 <= j < |items| ==> Lower(items[j].name) != Lower(Collapse(name))
    ensures AddSpec(items, name, price, stock).Ok?
    ensures var (ns, p) := AddSpec(items, name, price, stock).value;
            ns == items + [p] && p == Product(Collapse(name), price, stock) && ValidProduct(p)
  {
    NormalizeNameIdempotent(name);
    assert IndexOfName(items, Lower(Collapse(name))) == None;
  }

  /** A name already present updates the first case-insensitive match in place: the
      length is unchanged, the price overwritten, the stock increased by `stock`, the
      stored spelling kept, and every other record left alone. */
  lemma {:induction false} AddExisting(items: seq<Product>, name: string, price: real, stock: int, i: nat)
    requires !AllSpace(name) && price >= 0.0 && stock >= 0
    requires i < |items| && Lower(items[i].name) == Lower(Collapse(name))
    requires forall j :: 0 <= j < i ==> Lower(items[j].name) != Lower(Collapse(name))
    ensures AddSpec(items, name, price, stock).Ok?
    ensures var (ns, p) := AddSpec(items, name, price, stock).value;
            |ns| == |items| && ns[i] == p &&
            p == Product(items[i].name, price, items[i].stock + stock) &&
            forall j :: 0 <= j < |items| && j != i ==> ns[j] == items[j]
  {
    NormalizeNameIdempotent(name);
    var key := Lower(Collapse(name));
    var r := IndexOfName(items, key);
    assert r == Some(i) by {
      if r.None? { assert false; }
      else if r.value < i { assert false; }
      else if r.value > i { assert false; }
    }
  }

  /** Adding to a valid inventory keeps it valid. */
  lemma AddPreservesValid(items: seq<Product>, name: string, price: real, stock: int)
    requires ValidInventory(items)
    requires AddSpec(items, name, price, stock).Ok?
    ensures ValidInventory(AddSpec(items, name, price, stock).value.0)
    ensures ValidProduct(AddSpec(items, name, price, stock).value.1)
  {
    var n := NormalizeName(name).value;
    NormalizeNameIdempotent(name);
    var found := LookupSpec(items, n).value;
    assert AddSpec(items, name, price, stock) == Ok(Upsert(items, n, price, stock, found));
    UpsertCases(items, n, price, stock, found);
  }

  /** The in-memory effect of `vender_producto` and the product it returns. The
      quantity is checked first, then the lookup (a blank name raises ValueError, an
      unknown one KeyError), then the stock. */
  function SellSpec(items: seq<Product>, name: string, qty: int): Result<(seq<Product>, Product), InvError>
  {
    if qty <= 0 then Err(NonPositiveQuantity)
    else match LookupSpec(items, name)
      case Err(e) => Err(e)
      case Ok(None) => Err(UnknownProduct)
      case Ok(Some(i)) =>
        if items[i].stock < qty then Err(InsufficientStock)
        else
          var p := items[i].(stock := items[i].stock - qty);
          Ok((items[i := p], p))
  }

  /** The ways `vender_producto` raises, and the exception class of each. */
  lemma SellErrors(items: seq<Product>, name: string, qty: int)
    ensures qty <= 0 ==> SellSpec(items, name, qty) == Err(NonPositiveQuantity)
    ensures qty > 0 && AllSpace(name) ==> SellSpec(items, name, qty) == Err(BlankName)
    ensures qty > 0 && !AllSpace(name) && IndexOfName(items, Lower(Collapse(name))).None? ==>
              SellSpec(items, name, qty) == Err(UnknownProduct)
    ensures qty > 0 && !AllSpace(name) && IndexOfName(items, Lower(Collapse(name))).Some? ==>
              var i := IndexOfName(items, Lower(Collapse(name))).value;
              (items[i].stock < qty <==> SellSpec(items, name, qty) == Err(InsufficientStock)) &&
              (items[i].stock >= qty <==> SellSpec(items, name, qty).Ok?)
    ensures SellSpec(items, name, qty).Ok? <==>
              qty > 0 && !AllSpace(name) && IndexOfName(items, Lower(Collapse(name))).Some? &&
              items[IndexOfName(items, Lower(Collapse(name))).value].stock >= qty
    ensures SellSpec(items, name, qty).Err? ==>
              (SellSpec(items, name, qty).error.Kind() == KeyError <==> SellSpec(items, name, qty).error == UnknownProduct)
  {
  }

  /** A sale of `qty` that succeeds lowers the stock of exactly one product, the
      first whose lower-cased name matches the normalised, lower-cased `name`, by
      exactly `qty` and never below zero; everything else is unchanged. */
  lemma SellEffect(items: seq<Product>, name: string, qty: int)
    requires SellSpec(items, name, qty).Ok?
    ensures IndexOfName(items, Lower(Collapse(name))).Some?
    ensures var i := IndexOfName(items, Lower(Collapse(name))).value;
            var (ns, p) := SellSpec(items, name, qty).value;
            |ns| == |items| && i < |items| && ns[i] == p &&
            p.name == items[i].name && p.price == items[i].price &&
            p.stock == items[i].stock - qty && p.stock >= 0 &&
            (forall j :: 0 <= j < |items| && j != i ==> ns[j] == items[j])
  {
    assert LookupSpec(items, name) == Ok(IndexOfName(items, Lower(Collapse(name))));
    var i := IndexOfName(items, Lower(Collapse(name))).value;
    assert SellSpec(items, name, qty).value.0[i] == SellSpec(items, name, qty).value.1;
  }

  /** A sale fails with InsufficientStock exactly when the matched product has less
      than `qty`; selling the whole stock leaves 0. */
  lemma SellWholeStock(items: seq<Product>, name: string, i: nat)
    requires !AllSpace(name) && IndexOfName(items, Lower(Collapse(name))) == Some(i)
    requires items[i].stock > 0
    ensures SellSpec(items, name, items[i].stock).Ok?
    ensures SellSpec(items, name, items[i].stock).value.1.stock == 0
    ensures SellSpec(items, name, items[i].stock + 1) == Err(InsufficientStock)
  {
  }

  /** Selling from a valid inventory keeps it valid. */
  lemma SellPreservesValid(items: seq<Product>, name: string, qty: int)
    requires ValidInventory(items)
    requires SellSpec(items, name, qty).Ok?
    ensures ValidInventory(SellSpec(items, name, qty).value.0)
  {
  }

  /** The filter's lambda: `int(p.get("stock", 0)) > 0`. */
  function InStock(p: Product): bool
  {
    p.stock > 0
  }

  /** `filtrar_disponibles`: the products with stock > 0, in order. */
  function Available(items: seq<Product>): (r: seq<Product>)
    ensures IsSubseq(r, items)
    ensures |r| == Count(items, InStock)
    ensures forall p :: p in r <==> p in items && p.stock > 0
  {
    var r := Filter(items, InStock);
    forall p ensures p in r <==> p in items && p.stock > 0 {
      FilterMembership(items, InStock, p);
    }
    r
  }

  /** The store: the list `cargar_inventario` returned, and the file it writes. */
  class Store {
    var items: seq<Product>
    var file: JsonFile

    /** Opens the store by loading `f`. */
    constructor (f: JsonFile, conv: Conversions)
      ensures items == LoadSpec(f, conv) && file == f
      ensures ValidInventory(items)
    {
      var ps := LoadInventory(f, conv);
      items := ps;
      file := f;
    }

    /** `guardar_inventario(self.items)`: the file is replaced only when every record
        normalises. */
    method Save() returns (r: Outcome<InvError>)
      modifies this
      ensures items == old(items)
      ensures SaveSpec(items).Ok? ==> r == Done && file == SaveSpec(items).value
      ensures SaveSpec(items).Err? ==> r == Fail(SaveSpec(items).error) && file == old(file)
    {
      match SaveSpec(items)
      case Ok(f) =>
        file := f;
        r := Done;
      case Err(e) =>
        r := Fail(e);
    }

    /** `agregar_producto`: validate, update the list in place, then save. When the
        save raises the list keeps its update, as in the source. */
    method Add(name: string, price: real, stock: int) returns (r: Result<Product, InvError>)
      modifies this
      ensures AddSpec(old(items), name, price, stock).Err? ==>
                items == old(items) && file == old(file) && r == Err(AddSpec(old(items), name, price, stock).error)
      ensures AddSpec(old(items), name, price, stock).Ok? ==>
                var (ns, p) := AddSpec(old(items), name, price, stock).value;
                items == ns &&
                (SaveSpec(ns).Ok? ==> file == SaveSpec(ns).value && r == Ok(p)) &&
                (SaveSpec(ns).Err? ==> file == old(file) && r == Err(SaveSpec(ns).error))
    {
      ghost var spec := AddSpec(items, name, price, stock);
      var n := NormalizeName(name);
      if n.Err? {
        return Err(n.error);
      }
      if price < 0.0 {
        return Err(NegativePrice);
      }
      if stock < 0 {
        return Err(NegativeStock);
      }
      var found := FindIndex(items, n.value);
      if found.Err? {
        return Err(found.error);
      }
      ghost var upserted := Upsert(items, n.value, price, stock, found.value);
      assert spec == Ok(upserted) by {
        assert n == NormalizeName(name) && found == LookupSpec(items, n.value);
      }
      var p: Product;
      var updated: seq<Product>;
      UpsertCases(items, n.value, price, stock, found.value);
      if found.value.None? {
        p := Product(n.value, price, stock);
        updated := items + [p];
        assert upserted == (updated, p);
      } else {
        var i := found.value.value;
        p := Product(items[i].name, price, items[i].stock + stock);
        updated := items[i := p];
        assert upserted == (updated, p);
      }
      assert spec == Ok((updated, p));
      items := updated;
      var saved := Save();
      if saved.Fail? {
        return Err(saved.error);
      }
      return Ok(p);
    }

    /** `vender_producto`: check, lower the stock in place, then save. */
    method Sell(name: string, qty: int) returns (r: Result<Product, InvError>)
      modifies this
      ensures SellSpec(old(items), name, qty).Err? ==>
                items == old(items) && file == old(file) && r == Err(SellSpec(old(items), name, qty).error)
      ensures SellSpec(old(items), name, qty).Ok? ==>
                var (ns, p) := SellSpec(old(items), name, qty).value;
                items == ns &&
                (SaveSpec(ns).Ok? ==> file == SaveSpec(ns).value && r == Ok(p)) &&
                (SaveSpec(ns).Err? ==> file == old(file) && r == Err(SaveSpec(ns).error))
    {
      ghost var spec := SellSpec(items, name, qty);
      if qty <= 0 {
        return Err(NonPositiveQuantity);
      }
      var found := FindIndex(items, name);
      if found.Err? {
        return Err(found.error);
      }
      if found.value.None? {
        return Err(UnknownProduct);
      }
      var i := found.value.value;
      if items[i].stock < qty {
        return Err(InsufficientStock);
      }
      var p := items[i].(stock := items[i].stock - qty);
      assert spec == Ok((items[i := p], p));
      items := items[i := p];
      var saved := Save();
      if saved.Fail? {
        return Err(saved.error);
      }
      return Ok(p);
    }
  }

  /** On a valid store no save fails: Add and Sell persist every successful change,
      and what is persisted loads back as the list in memory. */
  lemma ValidStoreAlwaysSaves(items: seq<Product>, name: string, price: real, stock: int, qty: int, conv: Conversions)
    requires ValidInventory(items)
    ensures AddSpec(items, name, price, stock).Ok? ==>
              var ns := AddSpec(items, name, price, stock).value.0;
              SaveSpec(ns).Ok? && LoadSpec(SaveSpec(ns).value, conv) == ns
    ensures SellSpec(items, name, qty).Ok? ==>
              var ns := SellSpec(items, name, qty).value.0;
              SaveSpec(ns).Ok? && LoadSpec(SaveSpec(ns).value, conv) == ns
  {
    if AddSpec(items, name, price, stock).Ok? {
      AddPreservesValid(items, name, price, stock);
      SaveThenLoad(AddSpec(items, name, price, stock).value.0, conv);
    }
    if SellSpec(items, name, qty).Ok? {
      SellPreservesValid(items, name, qty);
      SaveThenLoad(SellSpec(items, name, qty).value.0, conv);
    }
  }
}
