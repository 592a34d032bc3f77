/** The result of categorize_books is a Python dict from category name to
    the list of file paths placed there. A dict remembers the order in which
    its keys were first inserted, and move_books and the report visit it in
    that order, so the model keeps that order next to the map. */
module Dicts {

  datatype Buckets<K, V> = Buckets(order: seq<K>, items: map<K, seq<V>>)

  /** No key is listed twice. */
  ghost predicate Distinct<K>(s: seq<K>) {
    forall i, j :: 0 <= i < j < |s| ==> s[i] != s[j]
  }

  /** Keys are listed once each, and the listed keys are exactly the keys
      of the map. */
  ghost predicate Valid<K, V>(b: Buckets<K, V>) {
    Distinct(b.order) &&
    (forall k :: k in b.items ==> k in b.order) &&
    (forall i :: 0 <= i < |b.order| ==> b.order[i] in b.items)
  }

  function Empty<K, V>(): (r: Buckets<K, V>)
    ensures Valid(r)
  {
    Buckets([], map[])
  }

  /** d[k].append(v) on a defaultdict(list): a missing key starts as the
      empty list and joins the end of the key order; an existing key keeps
      its place. */
  function Append<K(==), V>(b: Buckets<K, V>, k: K, v: V): (r: Buckets<K, V>)
    ensures r.items == b.items[k := if k in b.items then b.items[k] + [v] else [v]]
    ensures r.order == if k in b.items then b.order else b.order + [k]
  {
    if k in b.items then Buckets(b.order, b.items[k := b.items[k] + [v]])
    else Buckets(b.order + [k], b.items[k := [v]])
  }

  /** d[k] = vs: the list under k is replaced, or k is added at the end of
      the key order. */
  function Assign<K(==), V>(b: Buckets<K, V>, k: K, vs: seq<V>): (r: Buckets<K, V>)
    ensures r.items == b.items[k := vs]
    ensures r.order == if k in b.items then b.order else b.order + [k]
  {
    if k in b.items then Buckets(b.order, b.items[k := vs])
    else Buckets(b.order + [k], b.items[k := vs])
  }

  /** `for k in ks: a[k] = m[k]`, in the order of ks. */
  function AssignAll<K(==), V>(a: Buckets<K, V>, ks: seq<K>, m: map<K, seq<V>>): Buckets<K, V>
    requires forall k :: k in ks ==> k in m
    decreases |ks|
  {
    if ks == [] then a
    else AssignAll(Assign(a, ks[0], m[ks[0]]), ks[1..], m)
  }

  /** Running the assignments from position i on is assigning ks[i] and
      going on from i + 1. */
  lemma AssignAllStep<K, V>(a: Buckets<K, V>, ks: seq<K>, m: map<K, seq<V>>, i: nat)
    requires forall k :: k in ks ==> k in m
    requires i < |ks|
    ensures AssignAll(a, ks[i..], m) == AssignAll(Assign(a, ks[i], m[ks[i]]), ks[i + 1..], m)
  {
    assert ks[i..][0] == ks[i] && ks[i..][1..] == ks[i + 1..];
  }

  lemma AppendValid<K, V>(b: Buckets<K, V>, k: K, v: V)
    requires Valid(b)
    ensures Valid(Append(b, k, v))
  {
  }

  lemma AssignValid<K, V>(b: Buckets<K, V>, k: K, vs: seq<V>)
    requires Valid(b)
    ensures Valid(Assign(b, k, vs))
  {
  }

  /** What one key holds after the assignments: the list from m when the
      key is among ks, otherwise whatever a held. */
  lemma {:induction false} AssignAllAt<K, V>(a: Buckets<K, V>, ks: seq<K>, m: map<K, seq<V>>, k: K)
    requires forall j :: j in ks ==> j in m
    ensures k in AssignAll(a, ks, m).items <==> k in a.items || k in ks
    ensures k in AssignAll(a, ks, m).items ==>
      AssignAll(a, ks, m).items[k] == if k in ks then m[k] else a.items[k]
    decreases |ks|
  {
    if ks != [] {
      assert ks == [ks[0]] + ks[1..];
      AssignAllAt(Assign(a, ks[0], m[ks[0]]), ks[1..], m, k);
    }
  }

  /** The rest of a list of distinct keys is distinct and omits its head. */
  lemma DistinctTail<K>(ks: seq<K>)
    requires Distinct(ks) && ks != []
    ensures Distinct(ks[1..])
    ensures forall j :: j in ks[1..] ==> j in ks && j != ks[0]
  {
    forall j | j in ks[1..] ensures j in ks && j != ks[0] {
      var i :| 0 <= i < |ks[1..]| && ks[1..][i] == j;
      assert ks[i + 1] == j;
    }
  }

  /** When none of ks is already a key of a and ks lists each key once,
      every assignment adds a new key: a's keys come first, then ks. */
  lemma {:induction false} AssignAllOrder<K, V>(a: Buckets<K, V>, ks: seq<K>, m: map<K, seq<V>>)
    requires forall j :: j in ks ==> j in m && j !in a.items
    requires Distinct(ks)
    ensures AssignAll(a, ks, m).order == a.order + ks
    decreases |ks|
  {
    if ks != [] {
      var a' := Assign(a, ks[0], m[ks[0]]);
      DistinctTail(ks);
      AssignAllOrder(a', ks[1..], m);
      assert ks == [ks[0]] + ks[1..];
    }
  }

  /** Two key lists with no key in common concatenate to one that still
      lists each key once. */
  lemma DistinctConcat<K>(s: seq<K>, t: seq<K>)
    requires Distinct(s) && Distinct(t)
    requires forall k :: k in s ==> k !in t
    ensures Distinct(s + t)
  {
    forall i, j | 0 <= i < j < |s + t| ensures (s + t)[i] != (s + t)[j] {
      if i < |s| && j >= |s| {
        assert (s + t)[i] in s && (s + t)[j] == t[j - |s|];
      }
    }
  }

  /** A dict whose keys are those of a and b, listed as a's then b's, is
      valid when a and b are and share no key. */
  lemma ValidUnion<K, V>(r: Buckets<K, V>, a: Buckets<K, V>, b: Buckets<K, V>)
    requires Valid(a) && Valid(b)
    requires forall k :: k in a.items ==> k !in b.items
    requires r.order == a.order + b.order
    requires forall k :: k in r.items <==> k in a.items || k in b.items
    ensures Valid(r)
  {
    DistinctConcat(a.order, b.order);
  }

  /** Merging a valid dict b into a valid dict a with no key in common
      gives a valid dict in which nothing of a is overwritten. */
  lemma AssignAllDisjoint<K, V>(a: Buckets<K, V>, b: Buckets<K, V>)
    requires Valid(a) && Valid(b)
    requires forall k :: k in a.items ==> k !in b.items
    ensures Valid(AssignAll(a, b.order, b.items))
    ensures AssignAll(a, b.order, b.items).order == a.order + b.order
    ensures forall k :: k in AssignAll(a, b.order, b.items).items <==> k in a.items || k in b.items
    ensures forall k :: k in a.items ==> AssignAll(a, b.order, b.items).items[k] == a.items[k]
    ensures forall k :: k in b.items ==> AssignAll(a, b.order, b.items).items[k] == b.items[k]
  {
    var r := AssignAll(a, b.order, b.items);
    AssignAllOrder(a, b.order, b.items);
    forall k ensures k in r.items <==> k in a.items || k in b.items
      ensures k in r.items ==> r.items[k] == if k in b.items then b.items[k] else a.items[k]
    {
      AssignAllAt(a, b.order, b.items, k);
    }
    ValidUnion(r, a, b);
  }
}
