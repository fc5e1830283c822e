/** Dynamically typed Python values as the exercises receive them (decoded JSON,
    literal structures, arbitrary arguments), the exception kinds they raise, and
    the built-in conversions `float()`, `int()` and `str()` applied to them. */
module PyValues {
  import opened Wrappers

  /** A Python value. Floats are modelled as reals; a dict keeps its entries in
      insertion order; sets and frozensets keep the order in which they are iterated. */
  datatype Value =
    | NoneV
    | BoolV(b: bool)
    | IntV(i: int)
    | FloatV(r: real)
    | StrV(s: string)
    | BytesV(bytes: seq<int>)
    | ByteArrayV(bytes: seq<int>)
    | ListV(items: seq<Value>)
    | TupleV(items: seq<Value>)
    | SetV(items: seq<Value>)
    | FrozenSetV(items: seq<Value>)
    | DictV(entries: seq<(Value, Value)>)
    | FunctionV(name: string)
    | ObjectV(tag: string)

  /** `hash(v)` succeeds: lists, sets, dicts and bytearrays are unhashable, and a
      tuple or frozenset is hashable exactly when everything it holds is. Using an
      unhashable value as a dict key, or testing it with `in` on a dict, raises
      TypeError. */
  predicate Hashable(v: Value)
  {
    match v
    case ListV(_) => false
    case SetV(_) => false
    case DictV(_) => false
    case ByteArrayV(_) => false
    case TupleV(items) => forall i :: 0 <= i < |items| ==> Hashable(items[i])
    case FrozenSetV(items) => forall i :: 0 <= i < |items| ==> Hashable(items[i])
    case _ => true
  }

  /** The Python exception classes the exercises raise. */
  datatype ExceptionKind = ValueError | TypeError | KeyError

  /** The parts of Python's conversions that belong to the interpreter and are not
      modelled: parsing text as a float or as an int (signs, exponents, '_' separators,
      Unicode digits), and the text `str()` gives for a number or a container. */
  datatype Conversions = Conversions(
    parseFloat: string -> Option<real>,
    parseInt: string -> Option<int>,
    show: Value -> string)

  /** `isinstance(v, (int, float))` */
  predicate IsNumber(v: Value)
  {
    v.BoolV? || v.IntV? || v.FloatV?
  }

  /** A number as a real: `float(v)` for an int, float or bool. */
  function NumberValue(v: Value): real
    requires IsNumber(v)
  {
    match v
    case BoolV(b) => if b then 1.0 else 0.0
    case IntV(i) => i as real
    case FloatV(r) => r
  }

  /** `int(x)` for a float: truncation toward zero. */
  function Truncate(x: real): (n: int)
    ensures 0.0 <= x ==> n as real <= x < n as real + 1.0
    ensures x < 0.0 ==> n as real - 1.0 < x <= n as real
  {
    if x >= 0.0 then x.Floor else -((-x).Floor)
  }

  /** `float(v)`; None stands for any exception `float()` raises. */
  function ToFloat(v: Value, conv: Conversions): (r: Option<real>)
    ensures IsNumber(v) ==> r == Some(NumberValue(v))
    ensures !IsNumber(v) && !v.StrV? ==> r == None
  {
    match v
    case StrV(s) => conv.parseFloat(s)
    case _ => if IsNumber(v) then Some(NumberValue(v)) else None
  }

  /** `int(v)`; None stands for any exception `int()` raises. */
  function ToInt(v: Value, conv: Conversions): (r: Option<int>)
    ensures v.IntV? ==> r == Some(v.i)
    ensures v.FloatV? ==> r.Some? && -1.0 < v.r - r.value as real < 1.0
    ensures v.BoolV? ==> r == Some(if v.b then 1 else 0)
    ensures !IsNumber(v) && !v.StrV? ==> r == None
  {
    match v
    case BoolV(b) => Some(if b then 1 else 0)
    case IntV(i) => Some(i)
    case FloatV(x) => Some(Truncate(x))
    case StrV(s) => conv.parseInt(s)
    case _ => None
  }

  /** `str(v)` */
  function ToStr(v: Value, conv: Conversions): (s: string)
    ensures v.StrV? ==> s == v.s
    ensures v.NoneV? ==> s == "None"
  {
    match v
    case StrV(s) => s
    case NoneV => "None"
    case BoolV(b) => if b then "True" else "False"
    case _ => conv.show(v)
  }

  /** `k in d` for a dict's entries. */
  predicate HasKey(entries: seq<(Value, Value)>, k: Value)
  {
    exists i :: 0 <= i < |entries| && entries[i].0 == k
  }

  /** `d[k]` / `d.get(k)`: the value stored under `k`, if any. Dict keys are distinct,
      so the first matching entry is the only one. */
  function Lookup(entries: seq<(Value, Value)>, k: Value): (r: Option<Value>)
    ensures r.Some? <==> HasKey(entries, k)
  {
    if entries == [] then None
    else if entries[0].0 == k then Some(entries[0].1)
    else
      var r := Lookup(entries[1..], k);
      assert HasKey(entries[1..], k) ==> HasKey(entries, k) by {
        if HasKey(entries[1..], k) {
          var i :| 0 <= i < |entries[1..]| && entries[1..][i].0 == k;
          assert entries[i + 1].0 == k;
        }
      }
      assert HasKey(entries, k) ==> HasKey(entries[1..], k) by {
        if HasKey(entries, k) {
          var i :| 0 <= i < |entries| && entries[i].0 == k;
          assert i > 0 && entries[1..][i - 1].0 == k;
        }
      }
      r
  }

  /** Looking up each key of a three-entry dict with distinct keys. */
  lemma LookupThree(k0: Value, v0: Value, k1: Value, v1: Value, k2: Value, v2: Value)
    requires k0 != k1 && k0 != k2 && k1 != k2
    ensures var e := [(k0, v0), (k1, v1), (k2, v2)];
            Lookup(e, k0) == Some(v0) && Lookup(e, k1) == Some(v1) && Lookup(e, k2) == Some(v2)
  {
    var e := [(k0, v0), (k1, v1), (k2, v2)];
    assert e[1..] == [(k1, v1), (k2, v2)];
    assert e[1..][1..] == [(k2, v2)];
    assert Lookup(e[1..][1..], k2) == Some(v2);
    assert Lookup(e[1..], k2) == Some(v2);
    assert Lookup(e[1..], k1) == Some(v1);
  }

  /** `d.get(k, default)` */
  function GetOr(entries: seq<(Value, Value)>, k: Value, default: Value): (r: Value)
    ensures !HasKey(entries, k) ==> r == default
    ensures HasKey(entries, k) ==> Lookup(entries, k) == Some(r)
  {
    match Lookup(entries, k)
    case Some(v) => v
    case None => default
  }

  /** `n / 100`: an amount with two decimals. */
  function Cents(n: int): real
  {
    n as real / 100.0
  }

  /** `round(x, 2)` is a parameter of the operations that use it. A rounding to two
      decimals leaves an amount that already has two decimals unchanged... */
  ghost predicate KeepsCents(round2: real -> real)
  {
    forall n: int :: round2(Cents(n)) == Cents(n)
  }

  /** ... and never reverses the order of two amounts. */
  ghost predicate IsMonotone(round2: real -> real)
  {
    forall x: real, y: real :: x <= y ==> round2(x) <= round2(y)
  }

  /** A JSON file on disk: absent, empty, not decodable, or holding a decoded value. */
  datatype JsonFile = Missing | Empty | Undecodable | Decoded(content: Value)
}
