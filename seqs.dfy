/** Sequence combinators shared by the exercises: Python's `filter`, list
    comprehensions with a condition, `sep.join(...)` and "validate every element". */
module Seqs {
  import opened Wrappers

  /** Number of elements of `s` on which `p` holds. */
  function Count<T>(s: seq<T>, p: T -> bool): nat
  {
    if s == [] then 0 else (if p(s[0]) then 1 else 0) + Count(s[1..], p)
  }

  /** `r` is obtained from `s` by deleting elements, keeping the order of the rest. */
  predicate IsSubseq<T(==)>(r: seq<T>, s: seq<T>)
    decreases |r| + |s|
  {
    if r == [] then true
    else if s == [] then false
    else (r[0] == s[0] && IsSubseq(r[1..], s[1..])) || IsSubseq(r, s[1..])
  }

  /** `list(filter(p, s))` and `[x for x in s if p(x)]`: the elements of `s` on which
      `p` holds, in their original order. The three postconditions determine the
      result (see FilterUnique). */
  function Filter<T(==)>(s: seq<T>, p: T -> bool): (r: seq<T>)
    ensures forall i :: 0 <= i < |r| ==> p(r[i])
    ensures IsSubseq(r, s)
    ensures |r| == Count(s, p)
  {
    if s == [] then []
    else if p(s[0]) then [s[0]] + Filter(s[1..], p)
    else Filter(s[1..], p)
  }

  lemma {:induction false} FilterAppend<T>(s: seq<T>, t: seq<T>, p: T -> bool)
    ensures Filter(s + t, p) == Filter(s, p) + Filter(t, p)
  {
    if s == [] {
      assert s + t == t;
    } else {
      assert (s + t)[1..] == s[1..] + t;
      FilterAppend(s[1..], t, p);
    }
  }

  lemma {:induction false} CountAppend<T>(s: seq<T>, t: seq<T>, p: T -> bool)
    ensures Count(s + t, p) == Count(s, p) + Count(t, p)
  {
    if s == [] {
      assert s + t == t;
    } else {
      assert (s + t)[1..] == s[1..] + t;
      CountAppend(s[1..], t, p);
    }
  }

  /** An always-true predicate keeps the whole input. */
  lemma {:induction false} FilterAllTrue<T>(s: seq<T>, p: T -> bool)
    requires forall i :: 0 <= i < |s| ==> p(s[i])
    ensures Filter(s, p) == s
  {
    if s != [] {
      FilterAllTrue(s[1..], p);
    }
  }

  /** An always-false predicate keeps nothing. */
  lemma {:induction false} FilterAllFalse<T>(s: seq<T>, p: T -> bool)
    requires forall i :: 0 <= i < |s| ==> !p(s[i])
    ensures Filter(s, p) == []
  {
    if s != [] {
      FilterAllFalse(s[1..], p);
    }
  }

  /** `x` survives the filter exactly when it is in the input and satisfies `p`. */
  lemma {:induction false} FilterMembership<T>(s: seq<T>, p: T -> bool, x: T)
    ensures x in Filter(s, p) <==> x in s && p(x)
  {
    if s != [] {
      FilterMembership(s[1..], p, x);
      assert s == [s[0]] + s[1..];
    }
  }

  lemma {:induction false} SubseqCountBound<T>(r: seq<T>, s: seq<T>, p: T -> bool)
    requires IsSubseq(r, s)
    requires forall i :: 0 <= i < |r| ==> p(r[i])
    ensures |r| <= Count(s, p)
    decreases |r| + |s|
  {
    if r != [] {
      if r[0] == s[0] && IsSubseq(r[1..], s[1..]) {
        SubseqCountBound(r[1..], s[1..], p);
      } else {
        SubseqCountBound(r, s[1..], p);
      }
    }
  }

  /** The contract of Filter is complete: any order-preserving selection of elements
      satisfying `p` that has as many elements as `s` has `p`-elements IS Filter(s, p). */
  lemma {:induction false} FilterUnique<T>(r: seq<T>, s: seq<T>, p: T -> bool)
    requires IsSubseq(r, s)
    requires forall i :: 0 <= i < |r| ==> p(r[i])
    requires |r| == Count(s, p)
    ensures r == Filter(s, p)
    decreases |s|
  {
    if s == [] {
    } else if r == [] {
      FilterUnique(r, s[1..], p);
    } else if r[0] == s[0] && IsSubseq(r[1..], s[1..]) {
      assert p(s[0]);
      FilterUnique(r[1..], s[1..], p);
    } else {
      assert IsSubseq(r, s[1..]);
      SubseqCountBound(r, s[1..], p);
      if p(s[0]) {
        assert false;
      }
      FilterUnique(r, s[1..], p);
    }
  }

  /** `[f(x) for x in s]` */
  function Map<T, U>(s: seq<T>, f: T -> U): (r: seq<U>)
    ensures |r| == |s|
    ensures forall i :: 0 <= i < |s| ==> r[i] == f(s[i])
  {
    seq(|s|, i requires 0 <= i < |s| => f(s[i]))
  }

  /** The values of the elements on which `f` succeeds, in order: a loop that skips
      every element whose validation raises. */
  function KeepOk<T, U, E>(xs: seq<T>, f: T -> Result<U, E>): (r: seq<U>)
    ensures |r| == Count(xs, x => f(x).Ok?)
    ensures forall i :: 0 <= i < |r| ==> exists j :: 0 <= j < |xs| && f(xs[j]) == Ok(r[i])
  {
    if xs == [] then []
    else if f(xs[0]).Ok? then
      var rest := KeepOk(xs[1..], f);
      assert forall i :: 0 < i < |rest| + 1 ==> exists j :: 0 <= j < |xs| && f(xs[j]) == Ok(([f(xs[0]).value] + rest)[i]) by {
        forall i | 0 < i < |rest| + 1
          ensures exists j :: 0 <= j < |xs| && f(xs[j]) == Ok(([f(xs[0]).value] + rest)[i])
        {
          var j :| 0 <= j < |xs[1..]| && f(xs[1..][j]) == Ok(rest[i - 1]);
          assert f(xs[j + 1]) == Ok(([f(xs[0]).value] + rest)[i]);
        }
      }
      [f(xs[0]).value] + rest
    else
      var rest := KeepOk(xs[1..], f);
      assert forall i :: 0 <= i < |rest| ==> exists j :: 0 <= j < |xs| && f(xs[j]) == Ok(rest[i]) by {
        forall i | 0 <= i < |rest|
          ensures exists j :: 0 <= j < |xs| && f(xs[j]) == Ok(rest[i])
        {
          var j :| 0 <= j < |xs[1..]| && f(xs[1..][j]) == Ok(rest[i]);
          assert f(xs[j + 1]) == Ok(rest[i]);
        }
      }
      rest
  }

  lemma {:induction false} KeepOkAppend<T, U, E>(xs: seq<T>, ys: seq<T>, f: T -> Result<U, E>)
    ensures KeepOk(xs + ys, f) == KeepOk(xs, f) + KeepOk(ys, f)
  {
    if xs == [] {
      assert xs + ys == ys;
    } else {
      assert (xs + ys)[1..] == xs[1..] + ys;
      KeepOkAppend(xs[1..], ys, f);
    }
  }

  /** When every element validates to a known value, skipping failures keeps them all. */
  lemma {:induction false} KeepOkAllValues<T, U, E>(xs: seq<T>, f: T -> Result<U, E>, ys: seq<U>)
    requires |xs| == |ys|
    requires forall i :: 0 <= i < |xs| ==> f(xs[i]) == Ok(ys[i])
    ensures KeepOk(xs, f) == ys
  {
    if xs != [] {
      KeepOkAllValues(xs[1..], f, ys[1..]);
    }
  }

  /** Mapping a sequence one element longer. */
  lemma MapSnoc<T, U>(s: seq<T>, x: T, f: T -> U)
    ensures Map(s + [x], f) == Map(s, f) + [f(x)]
  {
    MapAppend(s, [x], f);
    assert Map([x], f) == [f(x)];
  }

  /** Filtering a sequence with one element in front. */
  lemma FilterCons<T>(x: T, s: seq<T>, p: T -> bool)
    ensures Filter([x] + s, p) == (if p(x) then [x] else []) + Filter(s, p)
  {
    assert ([x] + s)[1..] == s;
  }

  lemma ConcatAssoc<T>(a: seq<T>, b: seq<T>, c: seq<T>)
    ensures a + b + c == a + (b + c)
  {
  }

  /** A sequence is the part before position `i`, the element there, and the rest. */
  lemma SplitAt<T>(s: seq<T>, i: nat)
    requires i < |s|
    ensures s == s[..i] + [s[i]] + s[i + 1..]
  {
  }

  /** A non-empty sequence is its prefix followed by its last element. */
  lemma InitLast<T>(s: seq<T>)
    requires s != []
    ensures s == s[..|s| - 1] + [s[|s| - 1]]
  {
  }

  /** A prefix one element longer. */
  lemma TakeSnoc<T>(s: seq<T>, i: nat)
    requires i < |s|
    ensures s[..i + 1] == s[..i] + [s[i]]
  {
  }

  /** One more element adds its value when `f` succeeds on it. */
  lemma KeepOkSnoc<T, U, E>(xs: seq<T>, x: T, f: T -> Result<U, E>)
    ensures KeepOk(xs + [x], f) == KeepOk(xs, f) + (if f(x).Ok? then [f(x).value] else [])
  {
    KeepOkAppend(xs, [x], f);
    assert [x][1..] == [];
  }

  /** `[f(x) for x in xs]` where `f` may raise: the first error raised, or all values. */
  function AllOk<T, U, E>(xs: seq<T>, f: T -> Result<U, E>): (r: Result<seq<U>, E>)
    ensures r.Ok? <==> forall i :: 0 <= i < |xs| ==> f(xs[i]).Ok?
    ensures r.Ok? ==> |r.value| == |xs| && forall i :: 0 <= i < |xs| ==> f(xs[i]) == Ok(r.value[i])
    ensures r.Err? ==> exists k :: 0 <= k < |xs| && f(xs[k]) == Err(r.error) &&
                                   forall j :: 0 <= j < k ==> f(xs[j]).Ok?
  {
    if xs == [] then Ok([])
    else match f(xs[0])
      case Err(e) => Err(e)
      case Ok(u) =>
        match AllOk(xs[1..], f)
        case Err(e) =>
          assert forall k :: 0 <= k < |xs[1..]| && f(xs[1..][k]) == Err(e) && (forall j :: 0 <= j < k ==> f(xs[1..][j]).Ok?) ==>
            f(xs[k + 1]) == Err(e) && forall j :: 0 <= j < k + 1 ==> f(xs[j]).Ok?;
          Err(e)
        case Ok(us) =>
          assert forall i :: 1 <= i < |xs| ==> f(xs[i]) == f(xs[1..][i - 1]);
          Ok([u] + us)
  }

  /** When every element validates to a known value, validating all of them returns those values. */
  lemma AllOkAllValues<T, U, E>(xs: seq<T>, f: T -> Result<U, E>, ys: seq<U>)
    requires |xs| == |ys|
    requires forall i :: 0 <= i < |xs| ==> f(xs[i]) == Ok(ys[i])
    ensures AllOk(xs, f) == Ok(ys)
  {
    var r := AllOk(xs, f);
    assert r.Ok?;
    assert forall i :: 0 <= i < |xs| ==> r.value[i] == ys[i];
    assert r.value == ys;
  }

  /** When every element validates, skipping failures and failing on the first one agree. */
  lemma {:induction false} KeepOkWhenAllOk<T, U, E>(xs: seq<T>, f: T -> Result<U, E>)
    requires AllOk(xs, f).Ok?
    ensures KeepOk(xs, f) == AllOk(xs, f).value
  {
    if xs != [] {
      assert f(xs[0]).Ok?;
      assert forall i :: 0 <= i < |xs[1..]| ==> f(xs[1..][i]) == f(xs[i + 1]);
      KeepOkWhenAllOk(xs[1..], f);
    }
  }

  /** `sep.join(parts)` */
  function Join<T>(parts: seq<seq<T>>, sep: seq<T>): seq<T>
  {
    if parts == [] then []
    else if |parts| == 1 then parts[0]
    else parts[0] + sep + Join(parts[1..], sep)
  }

  /** Joining a part in front of non-empty parts puts one separator between them. */
  lemma JoinCons<T>(x: seq<T>, parts: seq<seq<T>>, sep: seq<T>)
    requires parts != []
    ensures Join([x] + parts, sep) == x + sep + Join(parts, sep)
  {
    assert ([x] + parts)[1..] == parts;
  }

  /** `"".join(parts)`: plain concatenation. */
  function Concat<T>(parts: seq<seq<T>>): seq<T>
  {
    if parts == [] then [] else parts[0] + Concat(parts[1..])
  }

  /** Sum of the lengths of the parts. */
  function TotalLength<T>(parts: seq<seq<T>>): nat
  {
    if parts == [] then 0 else |parts[0]| + TotalLength(parts[1..])
  }

  lemma {:induction false} JoinAppend<T>(parts: seq<seq<T>>, last: seq<T>, sep: seq<T>)
    ensures Join(parts + [last], sep) == if parts == [] then last else Join(parts, sep) + sep + last
  {
    if |parts| == 1 {
      assert parts + [last] == [parts[0], last];
    } else if |parts| > 1 {
      assert (parts + [last])[1..] == parts[1..] + [last];
      JoinAppend(parts[1..], last, sep);
    }
  }

  lemma MapAppend<T, U>(s: seq<T>, t: seq<T>, f: T -> U)
    ensures Map(s + t, f) == Map(s, f) + Map(t, f)
  {
  }

  /** `d = {}` followed by `d[k] = v` for every pair `f` yields, in order: later pairs
      overwrite earlier ones with the same key. */
  function Collect<T, K(==), V>(xs: seq<T>, f: T -> Option<(K, V)>): map<K, V>
    decreases |xs|
  {
    if xs == [] then map[]
    else
      var m := Collect(xs[..|xs| - 1], f);
      match f(xs[|xs| - 1])
      case None => m
      case Some(p) => m[p.0 := p.1]
  }

  /** Every key of the collected map comes, with its value, from some element; and
      every key an element yields is in the map. */
  lemma {:induction false} CollectSource<T, K, V>(xs: seq<T>, f: T -> Option<(K, V)>, k: K)
    ensures k in Collect(xs, f) ==> exists i :: 0 <= i < |xs| && f(xs[i]) == Some((k, Collect(xs, f)[k]))
    ensures (exists i :: 0 <= i < |xs| && f(xs[i]).Some? && f(xs[i]).value.0 == k) ==> k in Collect(xs, f)
    decreases |xs|
  {
    if xs != [] {
      var init := xs[..|xs| - 1];
      var m := Collect(xs, f);
      CollectSource(init, f, k);
      if k in m {
        if f(xs[|xs| - 1]).Some? && f(xs[|xs| - 1]).value.0 == k {
          assert f(xs[|xs| - 1]) == Some((k, m[k]));
        } else {
          var i :| 0 <= i < |init| && f(init[i]) == Some((k, Collect(init, f)[k]));
          assert xs[i] == init[i];
        }
      }
      if exists i :: 0 <= i < |xs| && f(xs[i]).Some? && f(xs[i]).value.0 == k {
        var i :| 0 <= i < |xs| && f(xs[i]).Some? && f(xs[i]).value.0 == k;
        if i < |init| {
          assert init[i] == xs[i];
        }
      }
    }
  }

  /** The value stored under a key is the one of the last element yielding that key. */
  lemma {:induction false} CollectLastWins<T, K, V>(xs: seq<T>, f: T -> Option<(K, V)>, i: nat)
    requires i < |xs| && f(xs[i]).Some?
    requires forall j :: i < j < |xs| && f(xs[j]).Some? ==> f(xs[j]).value.0 != f(xs[i]).value.0
    ensures f(xs[i]).value.0 in Collect(xs, f) && Collect(xs, f)[f(xs[i]).value.0] == f(xs[i]).value.1
    decreases |xs|
  {
    var init := xs[..|xs| - 1];
    if i < |xs| - 1 {
      assert init[i] == xs[i];
      forall j | i < j < |init| && f(init[j]).Some?
        ensures f(init[j]).value.0 != f(init[i]).value.0
      {
        assert init[j] == xs[j];
      }
      CollectLastWins(init, f, i);
    }
  }

  /** Filtering then mapping a list with one more element at the end. */
  /** Filtering commutes with a map that keeps the filter's verdict on every element. */
  lemma {:induction false} FilterMapCommute<T>(s: seq<T>, p: T -> bool, f: T -> T)
    requires forall x :: p(f(x)) == p(x)
    ensures Filter(Map(s, f), p) == Map(Filter(s, p), f)
  {
    if s != [] {
      FilterMapCommute(s[1..], p, f);
      assert Map(s, f) == [f(s[0])] + Map(s[1..], f);
      FilterCons(f(s[0]), Map(s[1..], f), p);
      if p(s[0]) {
        MapAppend([s[0]], Filter(s[1..], p), f);
      }
    }
  }

  lemma FilterMapSnoc<T, U>(xs: seq<T>, x: T, p: T -> bool, f: T -> U)
    ensures Map(Filter(xs + [x], p), f) == Map(Filter(xs, p), f) + (if p(x) then [f(x)] else [])
  {
    FilterAppend(xs, [x], p);
    MapAppend(Filter(xs, p), Filter([x], p), f);
    assert [x][1..] == [];
  }

  // ---------------------------------------------------------------------------
  // Dicts kept as their entries in insertion order
  // ---------------------------------------------------------------------------

  /** The mapping a list of entries denotes; the first entry for a key is the one read. */
  function AsMap<K(==), V>(d: seq<(K, V)>): map<K, V>
  {
    if d == [] then map[] else AsMap(d[1..])[d[0].0 := d[0].1]
  }

  /** No key occurs twice. */
  predicate DistinctKeys<K(==), V>(d: seq<(K, V)>)
  {
    forall i, j :: 0 <= i < j < |d| ==> d[i].0 != d[j].0
  }

  /** The keys of the mapping are the keys of the entries. */
  lemma {:induction false} AsMapKeys<K, V>(d: seq<(K, V)>, k: K)
    ensures k in AsMap(d) <==> exists i :: 0 <= i < |d| && d[i].0 == k
  {
    if d != [] {
      AsMapKeys(d[1..], k);
      if exists i :: 0 <= i < |d| && d[i].0 == k {
        var i :| 0 <= i < |d| && d[i].0 == k;
        if i > 0 { assert d[1..][i - 1].0 == k; }
      }
      if exists i :: 0 <= i < |d[1..]| && d[1..][i].0 == k {
        var i :| 0 <= i < |d[1..]| && d[1..][i].0 == k;
        assert d[i + 1].0 == k;
      }
    }
  }

  /** `d[k] = v`: an existing key keeps its place and gets the new value, a new key
      goes at the end. */
  function Assign<K(==), V>(d: seq<(K, V)>, k: K, v: V): (r: seq<(K, V)>)
    ensures k in AsMap(d) ==> |r| == |d|
    ensures k !in AsMap(d) ==> r == d + [(k, v)]
  {
    if d == [] then [(k, v)]
    else if d[0].0 == k then [(k, v)] + d[1..]
    else
      assert (d[1..] + [(k, v)]) == d[1..] + [(k, v)];
      assert [d[0]] + (d[1..] + [(k, v)]) == d + [(k, v)];
      [d[0]] + Assign(d[1..], k, v)
  }

  /** Assigning updates the denoted mapping at `k` and keeps the keys distinct. */
  lemma {:induction false} AssignAsMap<K, V>(d: seq<(K, V)>, k: K, v: V)
    ensures AsMap(Assign(d, k, v)) == AsMap(d)[k := v]
    ensures DistinctKeys(d) ==> DistinctKeys(Assign(d, k, v))
  {
    if d != [] {
      var r := Assign(d, k, v);
      if d[0].0 == k {
        assert r[1..] == d[1..];
        if DistinctKeys(d) {
          DistinctTail(d);
          DistinctCons((k, v), d[1..]);
        }
      } else {
        AssignAsMap(d[1..], k, v);
        assert r[1..] == Assign(d[1..], k, v);
        if DistinctKeys(d) {
          DistinctTail(d);
          DistinctCons(d[0], r[1..]);
          assert r == [d[0]] + r[1..];
        }
      }
    }
  }

  /** Without its first entry, a dict with distinct keys still has distinct keys, and
      no longer holds the first key. */
  lemma DistinctTail<K, V>(d: seq<(K, V)>)
    requires d != [] && DistinctKeys(d)
    ensures DistinctKeys(d[1..])
    ensures d[0].0 !in AsMap(d[1..])
  {
    forall i, j | 0 <= i < j < |d[1..]| ensures d[1..][i].0 != d[1..][j].0 {
      assert d[1..][i] == d[i + 1] && d[1..][j] == d[j + 1];
    }
    AsMapKeys(d[1..], d[0].0);
    if d[0].0 in AsMap(d[1..]) {
      var i :| 0 <= i < |d[1..]| && d[1..][i].0 == d[0].0;
    }
  }

  /** A new key in front of a dict with distinct keys keeps them distinct. */
  lemma DistinctCons<K, V>(x: (K, V), rest: seq<(K, V)>)
    requires DistinctKeys(rest) && x.0 !in AsMap(rest)
    ensures DistinctKeys([x] + rest)
  {
    var r := [x] + rest;
    AsMapKeys(rest, x.0);
    forall i, j | 0 <= i < j < |r| ensures r[i].0 != r[j].0 {
      assert r[j] == rest[j - 1];
      if i > 0 {
        assert r[i] == rest[i - 1];
      }
    }
  }

  /** The dict `Collect` builds, as entries in insertion order. */
  function Entries<T, K(==), V>(xs: seq<T>, f: T -> Option<(K, V)>): seq<(K, V)>
    decreases |xs|
  {
    if xs == [] then []
    else
      var d := Entries(xs[..|xs| - 1], f);
      match f(xs[|xs| - 1])
      case None => d
      case Some(p) => Assign(d, p.0, p.1)
  }

  /** One element more assigns its pair, if it has one. */
  lemma EntriesSnoc<T, K, V>(xs: seq<T>, x: T, f: T -> Option<(K, V)>)
    ensures Entries(xs + [x], f) == match f(x)
                                   case None => Entries(xs, f)
                                   case Some(p) => Assign(Entries(xs, f), p.0, p.1)
  {
    assert (xs + [x])[..|xs|] == xs;
  }

  /** The entries denote the collected map, with no key twice. */
  lemma {:induction false} EntriesAsMap<T, K, V>(xs: seq<T>, f: T -> Option<(K, V)>)
    ensures AsMap(Entries(xs, f)) == Collect(xs, f)
    ensures DistinctKeys(Entries(xs, f))
    decreases |xs|
  {
    if xs != [] {
      var d := Entries(xs[..|xs| - 1], f);
      EntriesAsMap(xs[..|xs| - 1], f);
      match f(xs[|xs| - 1])
      case None =>
      case Some(p) => AssignAsMap(d, p.0, p.1);
    }
  }

  /** With distinct keys, an entry is present exactly when the mapping holds it. */
  lemma {:induction false} EntryInAsMap<K, V>(d: seq<(K, V)>, k: K, v: V)
    requires DistinctKeys(d)
    ensures (k, v) in d <==> k in AsMap(d) && AsMap(d)[k] == v
  {
    if d != [] {
      assert DistinctKeys(d[1..]) by {
        forall i, j | 0 <= i < j < |d[1..]| ensures d[1..][i].0 != d[1..][j].0 {
          assert d[1..][i] == d[i + 1] && d[1..][j] == d[j + 1];
        }
      }
      EntryInAsMap(d[1..], k, v);
      if d[0].0 == k {
        AsMapKeys(d[1..], k);
      }
    }
  }

  /** Entries of elements that all yield a pair, with distinct keys, are those pairs. */
  lemma {:induction false} EntriesOfDistinct<T, K, V>(xs: seq<T>, f: T -> Option<(K, V)>, ys: seq<(K, V)>)
    requires |xs| == |ys| && DistinctKeys(ys)
    requires forall i :: 0 <= i < |xs| ==> f(xs[i]) == Some(ys[i])
    ensures Entries(xs, f) == ys
    decreases |xs|
  {
    if xs != [] {
      var n := |xs| - 1;
      EntriesOfDistinct(xs[..n], f, ys[..n]);
      AsMapKeys(ys[..n], ys[n].0);
      assert ys[..n] + [ys[n]] == ys;
    }
  }

  /** Everything in a joined sequence comes from a part or from the separator. */
  lemma {:induction false} JoinInside<T>(parts: seq<seq<T>>, sep: seq<T>, x: T)
    requires x in Join(parts, sep)
    ensures x in sep || exists k :: 0 <= k < |parts| && x in parts[k]
  {
    if |parts| > 1 {
      if x !in parts[0] && x !in sep {
        JoinInside(parts[1..], sep, x);
        if !(x in sep) {
          var k :| 0 <= k < |parts[1..]| && x in parts[1..][k];
          assert x in parts[k + 1];
        }
      }
    }
  }

  lemma {:induction false} SubseqRefl<T>(s: seq<T>)
    ensures IsSubseq(s, s)
    decreases |s|
  {
    if s != [] {
      SubseqRefl(s[1..]);
    }
  }

  /** A sequence is a subsequence of itself with anything in front. */
  lemma {:induction false} SubseqSuffix<T>(t: seq<T>, s: seq<T>)
    ensures IsSubseq(t, s + t)
    decreases |s|
  {
    if s == [] {
      assert s + t == t;
      SubseqRefl(t);
    } else if t != [] {
      SubseqSuffix(t, s[1..]);
      assert (s + t)[1..] == s[1..] + t;
    }
  }

  /** Appending to the sequence, or to both, keeps a subsequence. */
  lemma {:induction false} SubseqExtend<T>(r: seq<T>, s: seq<T>, t: seq<T>)
    requires IsSubseq(r, s)
    ensures IsSubseq(r, s + t) && IsSubseq(r + t, s + t)
    decreases |s|
  {
    if r == [] {
      assert r + t == t;
      SubseqSuffix(t, s);
    } else {
      assert (s + t)[1..] == s[1..] + t;
      assert (r + t)[1..] == r[1..] + t;
      if r[0] == s[0] && IsSubseq(r[1..], s[1..]) {
        SubseqExtend(r[1..], s[1..], t);
      } else {
        SubseqExtend(r, s[1..], t);
      }
    }
  }

  /** Every element of a subsequence is an element of the sequence. */
  lemma {:induction false} SubseqMember<T>(r: seq<T>, s: seq<T>, x: T)
    requires IsSubseq(r, s) && x in r
    ensures x in s
    decreases |s|
  {
    if r[0] == s[0] && IsSubseq(r[1..], s[1..]) {
      if x != r[0] {
        SubseqMember(r[1..], s[1..], x);
      }
    } else {
      SubseqMember(r, s[1..], x);
    }
  }

  /** Mapping both sides keeps a subsequence. */
  lemma {:induction false} SubseqMap<T, U>(r: seq<T>, s: seq<T>, f: T -> U)
    requires IsSubseq(r, s)
    ensures IsSubseq(Map(r, f), Map(s, f))
    decreases |s|
  {
    if r != [] {
      assert Map(r, f)[1..] == Map(r[1..], f);
      assert Map(s, f)[1..] == Map(s[1..], f);
      if r[0] == s[0] && IsSubseq(r[1..], s[1..]) {
        SubseqMap(r[1..], s[1..], f);
      } else {
        SubseqMap(r, s[1..], f);
      }
    }
  }
}
