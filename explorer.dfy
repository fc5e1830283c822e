/** The recursive explorer of nested values: lists, tuples, dicts, sets and frozensets
    are walked, and every atomic value comes out paired with its nesting depth. */
module Explorer {
  import opened Wrappers
  import opened Seqs
  import opened PyValues

  /** `_es_estructura`: list, tuple, dict, set and frozenset nest; str, bytes,
      bytearray and everything else are atomic. */
  predicate IsStructure(v: Value)
  {
    v.ListV? || v.TupleV? || v.DictV? || v.SetV? || v.FrozenSetV?
  }

  predicate IsAtom(v: Value)
  {
    !IsStructure(v)
  }

  /** The values of a dict, in insertion order. */
  function Values(entries: seq<(Value, Value)>): (r: seq<Value>)
    ensures |r| == |entries|
    ensures forall i :: 0 <= i < |r| ==> r[i] == entries[i].1
  {
    if entries == [] then [] else [entries[0].1] + Values(entries[1..])
  }

  /** What a structure holds for the explorer: a dict's values (never its keys), or
      the items of any other structure in iteration order. */
  function Children(v: Value): (r: seq<Value>)
    requires IsStructure(v)
    ensures forall i :: 0 <= i < |r| ==> r[i] < v
  {
    if v.DictV? then
      var r := Values(v.entries);
      assert forall i :: 0 <= i < |r| ==> r[i] < v by {
        forall i | 0 <= i < |r| ensures r[i] < v {
          assert v.entries[i] in v.entries;
        }
      }
      r
    else
      assert forall i :: 0 <= i < |v.items| ==> v.items[i] in v.items;
      v.items
  }

  /** `filtrar_atomos`: the atomic elements, in their order of appearance. */
  function FilterAtoms(items: seq<Value>): (r: seq<Value>)
    ensures forall i :: 0 <= i < |r| ==> IsAtom(r[i])
    ensures IsSubseq(r, items)
    ensures |r| == Count(items, IsAtom)
  {
    Filter(items, IsAtom)
  }

  /** An atom paired with a depth. */
  function At(d: int): Value -> (Value, int)
  {
    a => (a, d)
  }

  /** The walk of a value found at depth `d`: an atom yields itself; a structure yields
      its own atoms at depth `d`, then the walks of its sub-structures at depth `d + 1`. */
  function Walk(v: Value, d: int): seq<(Value, int)>
    decreases v, 1
  {
    if IsAtom(v) then [(v, d)]
    else Map(FilterAtoms(Children(v)), At(d)) + WalkSubs(Children(v), d + 1, v)
  }

  /** The walks, in order, of the structures among `xs` (children of `parent`). */
  function WalkSubs(xs: seq<Value>, d: int, ghost parent: Value): seq<(Value, int)>
    requires forall i :: 0 <= i < |xs| ==> xs[i] < parent
    decreases parent, 0, |xs|
  {
    if xs == [] then []
    else (if IsStructure(xs[0]) then Walk(xs[0], d) else []) + WalkSubs(xs[1..], d, parent)
  }

  /** `explorar_estructura(elemento, profundidad)`: ValueError for a depth below 1,
      otherwise the walk. */
  function Explore(v: Value, depth: int): (r: Result<seq<(Value, int)>, ExceptionKind>)
    ensures r.Err? <==> depth < 1
    ensures r.Err? ==> r.error == ValueError
    ensures IsAtom(v) && depth >= 1 ==> r == Ok([(v, depth)])
  {
    if depth < 1 then Err(ValueError) else Ok(Walk(v, depth))
  }

  /** The walk of each value in turn, concatenated. */
  function WalkEach(xs: seq<Value>, d: int): seq<(Value, int)>
  {
    if xs == [] then [] else Walk(xs[0], d) + WalkEach(xs[1..], d)
  }

  /** The source's two-pass shape: a structure's walk is its atoms at depth `d`, then
      `list(filter(_es_estructura, ...))` walked one by one at depth `d + 1`. */
  lemma {:induction false} WalkSubsIsFilter(xs: seq<Value>, d: int, parent: Value)
    requires forall i :: 0 <= i < |xs| ==> xs[i] < parent
    ensures WalkSubs(xs, d, parent) == WalkEach(Filter(xs, IsStructure), d)
  {
    if xs != [] {
      WalkSubsIsFilter(xs[1..], d, parent);
    }
  }

  lemma WalkShape(v: Value, d: int)
    requires IsStructure(v)
    ensures Walk(v, d) == Map(FilterAtoms(Children(v)), At(d)) + WalkEach(Filter(Children(v), IsStructure), d + 1)
  {
    WalkSubsIsFilter(Children(v), d + 1, v);
  }

  /** A dict is walked exactly like the list of its values: its keys play no part. */
  lemma DictIsItsValues(entries: seq<(Value, Value)>, d: int)
    ensures Walk(DictV(entries), d) == Walk(ListV(Values(entries)), d)
  {
    WalkShape(DictV(entries), d);
    WalkShape(ListV(Values(entries)), d);
  }

  /** The number of atomic leaves below a value; an empty structure has none. */
  function Leaves(v: Value): nat
    decreases v, 1
  {
    if IsAtom(v) then 1 else LeavesOf(Children(v), v)
  }

  function LeavesOf(xs: seq<Value>, ghost parent: Value): nat
    requires forall i :: 0 <= i < |xs| ==> xs[i] < parent
    decreases parent, 0, |xs|
  {
    if xs == [] then 0 else Leaves(xs[0]) + LeavesOf(xs[1..], parent)
  }

  /** Every pair the walk produces holds an atom at a depth of at least `d`, and there
      is one pair per atomic leaf. */
  lemma {:induction false} WalkLeaves(v: Value, d: int)
    ensures |Walk(v, d)| == Leaves(v)
    ensures forall k :: 0 <= k < |Walk(v, d)| ==> IsAtom(Walk(v, d)[k].0) && Walk(v, d)[k].1 >= d
    decreases v, 1
  {
    if IsStructure(v) {
      var xs := Children(v);
      WalkSubsLeaves(xs, d + 1, v);
      var atoms := Map(FilterAtoms(xs), At(d));
      LeavesAtLeastAtoms(xs, v);
      assert forall k :: 0 <= k < |atoms| ==> atoms[k] == (FilterAtoms(xs)[k], d);
    }
  }

  lemma {:induction false} WalkSubsLeaves(xs: seq<Value>, d: int, parent: Value)
    requires forall i :: 0 <= i < |xs| ==> xs[i] < parent
    ensures |WalkSubs(xs, d, parent)| == LeavesOf(xs, parent) - Count(xs, IsAtom)
    ensures forall k :: 0 <= k < |WalkSubs(xs, d, parent)| ==>
              IsAtom(WalkSubs(xs, d, parent)[k].0) && WalkSubs(xs, d, parent)[k].1 >= d
    decreases parent, 0, |xs|
  {
    if xs != [] {
      WalkSubsLeaves(xs[1..], d, parent);
      if IsStructure(xs[0]) {
        WalkLeaves(xs[0], d);
      }
      LeavesAtLeastAtoms(xs[1..], parent);
    }
  }

  /** Each atom among `xs` is one leaf, so the leaves are at least the atoms. */
  lemma {:induction false} LeavesAtLeastAtoms(xs: seq<Value>, parent: Value)
    requires forall i :: 0 <= i < |xs| ==> xs[i] < parent
    ensures LeavesOf(xs, parent) >= Count(xs, IsAtom)
    decreases |xs|
  {
    if xs != [] {
      LeavesAtLeastAtoms(xs[1..], parent);
    }
  }

  /** The first example of the explorer's tests: [1, [2, 3], {"a": 4}] walks to
      (1, 1), (2, 2), (3, 2), (4, 2). */
  lemma BasicExample()
    ensures Explore(ListV([IntV(1), ListV([IntV(2), IntV(3)]), DictV([(StrV("a"), IntV(4))])]), 1)
            == Ok([(IntV(1), 1), (IntV(2), 2), (IntV(3), 2), (IntV(4), 2)])
  {
    var inner := ListV([IntV(2), IntV(3)]);
    var dict := DictV([(StrV("a"), IntV(4))]);
    var xs := [IntV(1), inner, dict];
    assert Children(ListV(xs)) == xs;
    TopLevelExample(inner, dict);
    InnerListExample();
    InnerDictExample();
    WalkEachPair(inner, dict, 2);
    WalkShape(ListV(xs), 1);
    var w := Walk(ListV(xs), 1);
    assert w == Map([IntV(1)], At(1)) + (Walk(inner, 2) + Walk(dict, 2));
    assert Map([IntV(1)], At(1)) == [(IntV(1), 1)];
    FourInOrder((IntV(1), 1), (IntV(2), 2), (IntV(3), 2), (IntV(4), 2));
    assert Explore(ListV(xs), 1) == Ok(w);
  }

  lemma FourInOrder<T>(a: T, b: T, c: T, d: T)
    ensures [a] + ([b, c] + [d]) == [a, b, c, d]
  {
  }

  lemma WalkEachPair(a: Value, b: Value, d: int)
    ensures WalkEach([a, b], d) == Walk(a, d) + Walk(b, d)
  {
    assert [a, b][1..] == [b] && [b][1..] == [];
    assert WalkEach([b], d) == Walk(b, d) + [];
    assert Walk(b, d) + [] == Walk(b, d);
  }

  /** The top level of the first example: one atom, then two structures. */
  lemma TopLevelExample(inner: Value, dict: Value)
    requires IsStructure(inner) && IsStructure(dict)
    ensures FilterAtoms([IntV(1), inner, dict]) == [IntV(1)]
    ensures Filter([IntV(1), inner, dict], IsStructure) == [inner, dict]
  {
    assert [IntV(1), inner, dict] == [IntV(1)] + ([inner] + ([dict] + []));
    FilterCons(dict, [], IsAtom);
    FilterCons(inner, [dict], IsAtom);
    FilterCons(IntV(1), [inner, dict], IsAtom);
    FilterCons(dict, [], IsStructure);
    FilterCons(inner, [dict], IsStructure);
    FilterCons(IntV(1), [inner, dict], IsStructure);
  }

  /** The inner list of the first example: [2, 3] at depth 2. */
  lemma InnerListExample()
    ensures Walk(ListV([IntV(2), IntV(3)]), 2) == [(IntV(2), 2), (IntV(3), 2)]
  {
    var inner := ListV([IntV(2), IntV(3)]);
    assert Children(inner) == [IntV(2), IntV(3)];
    assert FilterAtoms([IntV(2), IntV(3)]) == [IntV(2), IntV(3)] by {
      assert [IntV(2), IntV(3)][1..][1..] == [];
    }
    assert WalkSubs([IntV(2), IntV(3)], 3, inner) == [] by {
      assert [IntV(2), IntV(3)][1..][1..] == [];
    }
  }

  /** The inner dict of the first example: {"a": 4} at depth 2. */
  lemma InnerDictExample()
    ensures Walk(DictV([(StrV("a"), IntV(4))]), 2) == [(IntV(4), 2)]
  {
    var dict := DictV([(StrV("a"), IntV(4))]);
    assert Children(dict) == [IntV(4)];
    assert FilterAtoms([IntV(4)]) == [IntV(4)];
    assert WalkSubs([IntV(4)], 3, dict) == [];
  }
}
