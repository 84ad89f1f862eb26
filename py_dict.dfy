/**
 * Python's `dict`: an insertion-ordered table with distinct keys.
 * Assigning to a key that is already present replaces its value in place and
 * keeps its position; a new key is appended at the end.  Iteration
 * (`dict.items()`) follows that order.
 */
module PyDict {

  function KeysOf<K, V>(items: seq<(K, V)>): (ks: seq<K>)
    ensures |ks| == |items|
  {
    if items == [] then [] else [items[0].0] + KeysOf(items[1..])
  }

  /** The `i`th key is the key of the `i`th entry. */
  lemma {:induction false} KeysOfIndex<K, V>(items: seq<(K, V)>)
    ensures forall i :: 0 <= i < |items| ==> KeysOf(items)[i] == items[i].0
    decreases |items|
  {
    if items != [] {
      KeysOfIndex(items[1..]);
      forall i | 0 <= i < |items| ensures KeysOf(items)[i] == items[i].0 {
        if i > 0 {
          assert KeysOf(items)[i] == KeysOf(items[1..])[i - 1];
        }
      }
    }
  }

  lemma {:induction false} KeysOfSnoc<K, V>(items: seq<(K, V)>, p: (K, V))
    ensures KeysOf(items + [p]) == KeysOf(items) + [p.0]
    decreases |items|
  {
    if items == [] {
      assert items + [p] == [p];
    } else {
      KeysOfSnoc(items[1..], p);
      assert (items + [p])[1..] == items[1..] + [p];
    }
  }

  /** The elements of a sequence, as a set. */
  function Elems<K>(s: seq<K>): set<K> {
    set x | x in s
  }

  lemma ElemsIn<K>(s: seq<K>)
    ensures forall x :: x in Elems(s) <==> x in s
  {
  }

  lemma ElemsSnoc<K>(s: seq<K>, x: K)
    ensures Elems(s + [x]) == Elems(s) + {x}
  {
    assert forall y :: y in s + [x] <==> y in s || y == x;
  }

  /** No element occurs twice. */
  predicate NoDup<K(==)>(s: seq<K>)
    decreases |s|
  {
    s == [] || (s[0] !in s[1..] && NoDup(s[1..]))
  }

  lemma {:induction false} NoDupAt<K>(s: seq<K>, i: nat, j: nat)
    requires NoDup(s)
    requires i < j < |s|
    ensures s[i] != s[j]
    decreases i
  {
    if i == 0 {
      assert s[j] == s[1..][j - 1];
    } else {
      NoDupAt(s[1..], i - 1, j - 1);
    }
  }

  /** `NoDup` is pairwise distinctness. */
  lemma {:induction false} NoDupPairwise<K>(s: seq<K>)
    ensures NoDup(s) <==> forall i, j :: 0 <= i < j < |s| ==> s[i] != s[j]
    decreases |s|
  {
    if s != [] {
      NoDupPairwise(s[1..]);
      if NoDup(s) {
        forall i, j | 0 <= i < j < |s| ensures s[i] != s[j] {
          NoDupAt(s, i, j);
        }
      }
      if forall i, j :: 0 <= i < j < |s| ==> s[i] != s[j] {
        forall i, j | 0 <= i < j < |s| - 1 ensures s[1..][i] != s[1..][j] {
          assert s[1..][i] == s[i + 1] && s[1..][j] == s[j + 1];
        }
        forall j | 0 <= j < |s| - 1 ensures s[1..][j] != s[0] {
          assert s[1..][j] == s[j + 1];
        }
      }
    }
  }

  lemma {:induction false} NoDupSnoc<K>(s: seq<K>, x: K)
    requires NoDup(s)
    requires x !in s
    ensures NoDup(s + [x])
    decreases |s|
  {
    if s != [] {
      assert (s + [x])[1..] == s[1..] + [x];
      NoDupSnoc(s[1..], x);
    }
  }

  /**
   * A table: the keys in insertion order and the value stored under each.
   * Assigning to a key that is already present replaces its value and keeps
   * its position; a new key is appended.
   */
  datatype Table<K(==), V> = Table(order: seq<K>, values: map<K, V>) {

    /** Every key is listed once, and the listed keys are exactly the stored ones. */
    ghost predicate Valid() {
      NoDup(order) && values.Keys == Elems(order)
    }

    /** `list(d)`: the keys in iteration order. */
    function Keys(): seq<K> {
      order
    }

    /** `k in d` */
    predicate Has(k: K) {
      k in values
    }

    /** `d[k]` */
    function Get(k: K): V
      requires Has(k)
    {
      values[k]
    }

    /** `d[k] = v` */
    function Put(k: K, v: V): (r: Table<K, V>)
      ensures r.Has(k) && r.Get(k) == v
    {
      Table(if k in values then order else order + [k], values[k := v])
    }

    /** `d.items()`: each key with its value, in iteration order. */
    function Items(): (items: seq<(K, V)>)
      requires Valid()
      ensures |items| == |order|
    {
      ElemsIn(order);
      seq(|order|, i requires 0 <= i < |order| => (order[i], values[order[i]]))
    }
  }

  /** The `i`th entry of `d.items()` is the `i`th key with its value. */
  lemma ItemsAt<K, V>(d: Dict<K, V>)
    ensures forall i | 0 <= i < |d.order| :: d.order[i] in d.values
    ensures forall i | 0 <= i < |d.order| :: d.Items()[i] == (d.order[i], d.values[d.order[i]])
  {
    ElemsIn(d.order);
  }

  /** Assigning to one key leaves every other key's value alone. */
  lemma PutOther<K, V>(t: Table<K, V>, k: K, v: V, other: K)
    requires t.Has(other) && other != k
    ensures t.Put(k, v).Has(other) && t.Put(k, v).Get(other) == t.Get(other)
  {
  }

  /**
   * Assigning keeps a table well-formed: no key is duplicated or lost, an
   * existing key keeps its position, and every other key keeps its value.
   */
  lemma PutValid<K, V>(t: Table<K, V>, k: K, v: V)
    requires t.Valid()
    ensures t.Put(k, v).Valid()
    ensures t.Put(k, v).Keys() == if t.Has(k) then t.Keys() else t.Keys() + [k]
    ensures forall o :: o != k && t.Has(o) ==> t.Put(k, v).Has(o) && t.Put(k, v).Get(o) == t.Get(o)
  {
    ElemsSnoc(t.order, k);
    if !t.Has(k) {
      ElemsIn(t.order);
      NoDupSnoc(t.order, k);
    }
  }

  /** A Python dict: a well-formed table. */
  type Dict<K(==), V> = t: Table<K, V> | t.Valid() witness Table([], map[])

  function Empty<K(==), V>(): (d: Dict<K, V>)
    ensures d.Keys() == []
    ensures d.values == map[]
  {
    Table([], map[])
  }

  /** The keys of `d.items()` are `list(d)`. */
  lemma ItemsKeys<K, V>(d: Dict<K, V>)
    ensures KeysOf(d.Items()) == d.Keys()
  {
    KeysOfIndex(d.Items());
    ItemsAt(d);
  }

  /** Each entry `(key, value)` of `d.items()` is a key of `d` with `d[key] == value`. */
  lemma ItemsIn<K, V>(d: Dict<K, V>, p: (K, V))
    requires p in d.Items()
    ensures d.Has(p.0) && d.Get(p.0) == p.1
  {
    var i :| 0 <= i < |d.Items()| && d.Items()[i] == p;
    ItemsAt(d);
  }

  /** Every key of `d` appears in `d.items()` with its value. */
  lemma InItems<K, V>(d: Dict<K, V>, k: K)
    requires d.Has(k)
    ensures (k, d.Get(k)) in d.Items()
  {
    ElemsIn(d.order);
    assert k in d.order;
    var i :| 0 <= i < |d.order| && d.order[i] == k;
    ItemsAt(d);
    assert d.Items()[i] == (k, d.Get(k));
  }

  /**
   * The dict built by assigning `d[k] = v` for each pair in turn, starting
   * from `{}`: the loop `for item in data: d[key] = value` and the dict
   * comprehension `{key: value for item in data}` both build this.
   */
  function FromPairs<K, V>(pairs: seq<(K, V)>): Dict<K, V>
    decreases |pairs|
  {
    if pairs == [] then Empty()
    else
      var n := |pairs| - 1;
      PutValid(FromPairs(pairs[..n]), pairs[n].0, pairs[n].1);
      FromPairs(pairs[..n]).Put(pairs[n].0, pairs[n].1)
  }

  /** The dict holds exactly the keys of the pairs. */
  lemma FromPairsKeys<K, V>(pairs: seq<(K, V)>)
    ensures forall k :: FromPairs(pairs).Has(k) <==> k in KeysOf(pairs)
  {
    FromPairsKeySet(pairs);
    ElemsIn(KeysOf(pairs));
  }

  lemma {:induction false} FromPairsKeySet<K, V>(pairs: seq<(K, V)>)
    ensures FromPairs(pairs).values.Keys == Elems(KeysOf(pairs))
    decreases |pairs|
  {
    if pairs != [] {
      var n := |pairs| - 1;
      FromPairsKeySet(pairs[..n]);
      KeysOfSnoc(pairs[..n], pairs[n]);
      assert pairs[..n] + [pairs[n]] == pairs;
      ElemsSnoc(KeysOf(pairs[..n]), pairs[n].0);
    }
  }

  /** The last assignment, unfolded. */
  lemma FromPairsLast<K, V>(pairs: seq<(K, V)>)
    requires pairs != []
    ensures FromPairs(pairs) == FromPairs(pairs[..|pairs| - 1]).Put(pairs[|pairs| - 1].0, pairs[|pairs| - 1].1)
  {
  }

  /** A later pair for the same key overwrites an earlier one: the last one wins. */
  lemma {:induction false} FromPairsLastWins<K, V>(pairs: seq<(K, V)>, i: nat)
    requires i < |pairs|
    requires forall j :: i < j < |pairs| ==> pairs[j].0 != pairs[i].0
    ensures FromPairs(pairs).Has(pairs[i].0) && FromPairs(pairs).Get(pairs[i].0) == pairs[i].1
    decreases |pairs|
  {
    var n := |pairs| - 1;
    FromPairsLast(pairs);
    if i < n {
      assert pairs[..n][i] == pairs[i];
      FromPairsLastWins(pairs[..n], i);
      var prev := FromPairs(pairs[..n]);
      assert prev.Has(pairs[i].0) && prev.Get(pairs[i].0) == pairs[i].1;
      PutOther(prev, pairs[n].0, pairs[n].1, pairs[i].0);
    }
  }
}
