/**
 * Python's `sorted(xs, key=...)`: a stable sort that compares keys with `<`.
 * The keys the scripts sort by are file names (strings) and `page` fields
 * (integers, or strings); each item carries its position in the input so that
 * stability can be stated.
 */
module Sorting {

  /** A sort key: an integer (a `bool` counts as 0 or 1) or a string. */
  datatype Key = IntKey(n: int) | StrKey(s: string)

  /** Python's `<` on strings: code point by code point, a proper prefix first. */
  predicate StrLt(a: string, b: string)
    decreases |a|
  {
    if a == [] then b != []
    else b != [] && (a[0] < b[0] || (a[0] == b[0] && StrLt(a[1..], b[1..])))
  }

  lemma {:induction false} StrLtIrreflexive(a: string)
    ensures !StrLt(a, a)
    decreases |a|
  {
    if a != [] {
      StrLtIrreflexive(a[1..]);
    }
  }

  lemma {:induction false} StrLtTransitive(a: string, b: string, c: string)
    requires StrLt(a, b) && StrLt(b, c)
    ensures StrLt(a, c)
    decreases |a|
  {
    if a != [] && a[0] == b[0] && b[0] == c[0] {
      StrLtTransitive(a[1..], b[1..], c[1..]);
    }
  }

  lemma {:induction false} StrLtTotal(a: string, b: string)
    ensures a == b || StrLt(a, b) || StrLt(b, a)
    decreases |a|
  {
    if a != [] && b != [] && a[0] == b[0] {
      StrLtTotal(a[1..], b[1..]);
      if a[1..] == b[1..] {
        assert a == [a[0]] + a[1..] && b == [b[0]] + b[1..];
      }
    }
  }

  /**
   * `<` on keys. Within one sort all keys have the same kind (the callers
   * raise before sorting mixed keys); across kinds integers are put first
   * only so that the order is total.
   */
  predicate KeyLt(a: Key, b: Key) {
    match a
    case IntKey(x) => (match b case IntKey(y) => x < y case StrKey(_) => true)
    case StrKey(x) => (match b case IntKey(_) => false case StrKey(y) => StrLt(x, y))
  }

  /** `<` on keys is a strict total order. */
  lemma KeyLtOrder(a: Key, b: Key, c: Key)
    ensures !KeyLt(a, a)
    ensures KeyLt(a, b) && KeyLt(b, c) ==> KeyLt(a, c)
    ensures a == b || KeyLt(a, b) || KeyLt(b, a)
  {
    if a.StrKey? {
      StrLtIrreflexive(a.s);
      if b.StrKey? {
        StrLtTotal(a.s, b.s);
        if c.StrKey? && KeyLt(a, b) && KeyLt(b, c) {
          StrLtTransitive(a.s, b.s, c.s);
        }
      }
    }
  }

  /** An element of the list being sorted, with its key and its position in the input. */
  datatype Item<T> = Item(key: Key, index: nat, value: T)

  /** x comes before y in a stable sort: a smaller key, or an equal key and an earlier position. */
  predicate Before<T>(x: Item<T>, y: Item<T>) {
    KeyLt(x.key, y.key) || (x.key == y.key && x.index < y.index)
  }

  lemma BeforeOrder<T>(x: Item<T>, y: Item<T>, z: Item<T>)
    ensures !Before(x, x)
    ensures Before(x, y) && Before(y, z) ==> Before(x, z)
    ensures Before(x, y) ==> !Before(y, x)
    ensures x.index != y.index ==> Before(x, y) || Before(y, x)
  {
    KeyLtOrder(x.key, y.key, z.key);
    KeyLtOrder(y.key, x.key, z.key);
    KeyLtOrder(x.key, y.key, x.key);
  }

  ghost predicate SortedBy<T>(xs: seq<Item<T>>) {
    forall i, j :: 0 <= i < j < |xs| ==> Before(xs[i], xs[j])
  }

  /** The list `sorted(values, key=...)` starts from: value k with key k at position k. */
  function Number<T>(keys: seq<Key>, values: seq<T>): (r: seq<Item<T>>)
    requires |keys| == |values|
    ensures |r| == |values|
    ensures forall k :: 0 <= k < |r| ==> r[k] == Item(keys[k], k, values[k])
  {
    seq(|values|, k requires 0 <= k < |values| => Item(keys[k], k, values[k]))
  }

  function Values<T>(xs: seq<Item<T>>): (r: seq<T>)
    ensures |r| == |xs| && forall k :: 0 <= k < |xs| ==> r[k] == xs[k].value
  {
    if xs == [] then [] else [xs[0].value] + Values(xs[1..])
  }

  /** x goes in front of the first element it comes before. */
  function Insert<T>(x: Item<T>, ys: seq<Item<T>>): (r: seq<Item<T>>)
    ensures multiset(r) == multiset(ys) + multiset{x}
    ensures |r| == |ys| + 1
  {
    if ys == [] then [x]
    else if Before(x, ys[0]) then [x] + ys
    else
      assert ys == [ys[0]] + ys[1..];
      [ys[0]] + Insert(x, ys[1..])
  }

  /** The items in stable order: each one inserted after the items before it in the input. */
  function SortItems<T>(xs: seq<Item<T>>): (r: seq<Item<T>>)
    ensures multiset(r) == multiset(xs)
    ensures |r| == |xs|
  {
    if xs == [] then []
    else
      assert xs == xs[..|xs| - 1] + [xs[|xs| - 1]];
      Insert(xs[|xs| - 1], SortItems(xs[..|xs| - 1]))
  }

  lemma SortedCons<T>(h: Item<T>, t: seq<Item<T>>)
    requires SortedBy(t) && forall z :: z in t ==> Before(h, z)
    ensures SortedBy([h] + t)
  {
    var r := [h] + t;
    forall i, j | 0 <= i < j < |r| ensures Before(r[i], r[j]) {
      assert r[j] == t[j - 1];
      if 0 < i {
        assert r[i] == t[i - 1];
      }
    }
  }

  lemma {:induction false} InsertSorted<T>(x: Item<T>, ys: seq<Item<T>>)
    requires SortedBy(ys) && forall y :: y in ys ==> y.index < x.index
    ensures SortedBy(Insert(x, ys))
    ensures multiset(Insert(x, ys)) == multiset(ys) + multiset{x}
  {
    if ys == [] {
    } else if Before(x, ys[0]) {
      forall z | z in ys ensures Before(x, z) {
        var j :| 0 <= j < |ys| && ys[j] == z;
        if 0 < j {
          BeforeOrder(x, ys[0], z);
        }
      }
      SortedCons(x, ys);
    } else {
      BeforeOrder(x, ys[0], x);
      var t := ys[1..];
      assert ys == [ys[0]] + t;
      InsertSorted(x, t);
      var rest := Insert(x, t);
      forall z | z in rest ensures Before(ys[0], z) {
        assert z in multiset(rest);
      }
      SortedCons(ys[0], rest);
    }
  }

  lemma ValuesCons<T>(h: Item<T>, t: seq<Item<T>>)
    ensures multiset(Values([h] + t)) == multiset{h.value} + multiset(Values(t))
  {
    assert ([h] + t)[1..] == t;
    assert Values([h] + t) == [h.value] + Values(t);
  }

  lemma {:induction false} InsertValues<T>(x: Item<T>, ys: seq<Item<T>>)
    ensures multiset(Values(Insert(x, ys))) == multiset(Values(ys)) + multiset{x.value}
  {
    if ys != [] && !Before(x, ys[0]) {
      InsertValues(x, ys[1..]);
      ValuesCons(ys[0], Insert(x, ys[1..]));
      ValuesCons(ys[0], ys[1..]);
      assert ys == [ys[0]] + ys[1..];
    } else if ys != [] {
      ValuesCons(x, ys);
    }
  }

  lemma {:induction false} ValuesAppend<T>(a: seq<Item<T>>, b: seq<Item<T>>)
    ensures Values(a + b) == Values(a) + Values(b)
  {
    if a != [] {
      assert (a + b)[1..] == a[1..] + b;
      ValuesAppend(a[1..], b);
    }
  }

  ghost predicate Numbered<T>(xs: seq<Item<T>>) {
    forall k :: 0 <= k < |xs| ==> xs[k].index == k
  }

  lemma IndicesBelow<T>(xs: seq<Item<T>>, ys: seq<Item<T>>)
    requires Numbered(xs) && multiset(ys) == multiset(xs)
    ensures forall y :: y in ys ==> y.index < |xs|
  {
    forall y | y in ys ensures y.index < |xs| {
      assert y in multiset(xs);
    }
  }

  /**
   * `sorted` as a stable sort: the result is in ascending key order with ties
   * in input order, and holds the same items.
   */
  lemma {:induction false} SortItemsCorrect<T>(xs: seq<Item<T>>)
    requires Numbered(xs)
    ensures SortedBy(SortItems(xs))
    ensures multiset(SortItems(xs)) == multiset(xs)
    decreases |xs|
  {
    if xs != [] {
      var init := xs[..|xs| - 1];
      var last := xs[|xs| - 1];
      assert Numbered(init);
      SortItemsCorrect(init);
      IndicesBelow(init, SortItems(init));
      InsertSorted(last, SortItems(init));
      assert SortItems(xs) == Insert(last, SortItems(init));
    }
  }

  lemma ValuesLast<T>(xs: seq<Item<T>>)
    requires xs != []
    ensures multiset(Values(xs)) == multiset(Values(xs[..|xs| - 1])) + multiset{xs[|xs| - 1].value}
  {
    assert xs == xs[..|xs| - 1] + [xs[|xs| - 1]];
    ValuesAppend(xs[..|xs| - 1], [xs[|xs| - 1]]);
    assert Values([xs[|xs| - 1]]) == [xs[|xs| - 1].value];
  }

  /** The sorted values are the input values, rearranged. */
  lemma {:induction false} SortValues<T>(xs: seq<Item<T>>)
    ensures multiset(Values(SortItems(xs))) == multiset(Values(xs))
    decreases |xs|
  {
    if xs != [] {
      var init := xs[..|xs| - 1];
      var last := xs[|xs| - 1];
      SortValues(init);
      InsertValues(last, SortItems(init));
      ValuesLast(xs);
    }
  }

  /** Every item of a rearranged numbered list is value k of the input with key k, for its own position k. */
  lemma NumberedMembers<T>(keys: seq<Key>, values: seq<T>, r: seq<Item<T>>)
    requires |keys| == |values| && multiset(r) == multiset(Number(keys, values))
    ensures forall x :: x in r ==> x.index < |values| && x == Item(keys[x.index], x.index, values[x.index])
  {
    forall x | x in r ensures x.index < |values| && x == Item(keys[x.index], x.index, values[x.index]) {
      assert x in multiset(Number(keys, values));
    }
  }

  /** What SortedBy says in the terms of `sorted`: keys ascend, and equal keys keep their input order. */
  lemma SortedMeans<T>(r: seq<Item<T>>)
    requires SortedBy(r)
    ensures forall i, j :: 0 <= i < j < |r| ==> !KeyLt(r[j].key, r[i].key)
    ensures forall i, j :: 0 <= i < j < |r| && r[i].key == r[j].key ==> r[i].index < r[j].index
  {
    forall i, j | 0 <= i < j < |r| ensures !KeyLt(r[j].key, r[i].key) {
      KeyLtOrder(r[i].key, r[j].key, r[i].key);
    }
  }

  lemma SortedTail<T>(a: seq<Item<T>>)
    requires SortedBy(a) && a != []
    ensures SortedBy(a[1..])
  {
    forall i, j | 0 <= i < j < |a| - 1 ensures Before(a[1..][i], a[1..][j]) {
      assert a[1..][i] == a[i + 1] && a[1..][j] == a[j + 1];
    }
  }

  /**
   * The stable order is the only one: two sorted lists of the same items are
   * equal, so the properties above determine what `sorted` returns.
   */
  lemma {:induction false} SortedUnique<T>(a: seq<Item<T>>, b: seq<Item<T>>)
    requires SortedBy(a) && SortedBy(b) && multiset(a) == multiset(b)
    ensures a == b
    decreases |a|
  {
    if a != [] {
      SameHeads(a, b);
      SameTails(a, b);
      SortedTail(a);
      SortedTail(b);
      SortedUnique(a[1..], b[1..]);
      assert a == [a[0]] + a[1..] && b == [b[0]] + b[1..];
    }
  }

  /** Both lists start with the item that comes before all others. */
  lemma SameHeads<T>(a: seq<Item<T>>, b: seq<Item<T>>)
    requires SortedBy(a) && SortedBy(b) && multiset(a) == multiset(b) && a != []
    ensures b != [] && a[0] == b[0]
  {
    assert a[0] in multiset(b);
    assert b[0] in multiset(a);
    if a[0] != b[0] {
      var i :| 0 < i < |a| && a[i] == b[0];
      BeforeOrder(a[0], b[0], a[0]);
      assert false;
    }
  }

  lemma SameTails<T>(a: seq<Item<T>>, b: seq<Item<T>>)
    requires multiset(a) == multiset(b) && a != [] && b != [] && a[0] == b[0]
    ensures multiset(a[1..]) == multiset(b[1..])
  {
    assert a == [a[0]] + a[1..] && b == [b[0]] + b[1..];
    assert multiset(a[1..]) == multiset(a) - multiset{a[0]};
    assert multiset(b[1..]) == multiset(b) - multiset{b[0]};
  }
}
