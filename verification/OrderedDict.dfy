/** Ordered dictionaries: Python's dictionaries, which keep their keys in the order of insertion. */
module OrderedDict {
  import opened Common

  datatype Item<+V> = Item(key: string, value: V)

  /** An ordered dictionary. */
  type Dict<V> = seq<Item<V>>

  function Find<V>(d: Dict<V>, key: string): Option<nat> {
    if d == [] then None
    else if d[|d| - 1].key == key then Some(|d| - 1)
    else Find(d[..|d| - 1], key)
  }

  predicate Has<V>(d: Dict<V>, key: string) {
    Find(d, key).Some?
  }

  lemma {:induction false} FindFinds<V>(d: Dict<V>, key: string)
    ensures match Find(d, key)
      case Some(i) => i < |d| && d[i].key == key
      case None => forall i :: 0 <= i < |d| ==> d[i].key != key
  {
    if d != [] {
      FindFinds(d[..|d| - 1], key);
    }
  }

  ghost predicate Distinct<V>(d: Dict<V>) {
    forall i, j :: 0 <= i < j < |d| ==> d[i].key != d[j].key
  }

  lemma FindUnique<V>(d: Dict<V>, i: nat)
    requires Distinct(d) && i < |d|
    ensures Find(d, d[i].key) == Some(i)
  {
    FindFinds(d, d[i].key);
  }

  function Get<V>(d: Dict<V>, key: string): Option<V> {
    FindFinds(d, key);
    if Has(d, key) then Some(d[Find(d, key).value].value) else None
  }

  /** Assignment to a key: in place if the key is there, at the end otherwise. */
  function Put<V>(d: Dict<V>, key: string, value: V): Dict<V> {
    FindFinds(d, key);
    if Has(d, key) then d[Find(d, key).value := Item(key, value)] else d + [Item(key, value)]
  }

  lemma HasIsGet<V>(d: Dict<V>, key: string)
    ensures Has(d, key) <==> Get(d, key).Some?
  {
  }

  lemma PutSame<V>(d: Dict<V>, key: string)
    requires Has(d, key)
    ensures Put(d, key, Get(d, key).value) == d
  {
    FindFinds(d, key);
  }

  lemma FindSnoc<V>(d: Dict<V>, item: Item<V>, key: string)
    ensures Find(d + [item], key) == if item.key == key then Some(|d|) else Find(d, key)
  {
    assert (d + [item])[..|d|] == d;
  }

  lemma GetSnoc<V>(d: Dict<V>, item: Item<V>, key: string)
    ensures Get(d + [item], key) == if item.key == key then Some(item.value) else Get(d, key)
  {
    FindSnoc(d, item, key);
    FindFinds(d, key);
  }

  lemma PutKeepsDistinct<V>(d: Dict<V>, key: string, value: V)
    requires Distinct(d)
    ensures Distinct(Put(d, key, value))
  {
    FindFinds(d, key);
  }

  lemma {:induction false} FindAfterUpdate<V>(d: Dict<V>, i: nat, value: V, key: string)
    requires i < |d|
    ensures Find(d[i := d[i].(value := value)], key) == Find(d, key)
  {
    if i < |d| - 1 {
      FindAfterUpdate(d[..|d| - 1], i, value, key);
      assert d[i := d[i].(value := value)][..|d| - 1] == d[..|d| - 1][i := d[i].(value := value)];
    } else {
      assert d[i := d[i].(value := value)][..|d| - 1] == d[..|d| - 1];
    }
  }

  lemma GetPut<V>(d: Dict<V>, key: string, value: V, other: string)
    requires Distinct(d)
    ensures Get(Put(d, key, value), other) == if other == key then Some(value) else Get(d, other)
    ensures Has(Put(d, key, value), other) <==> other == key || Has(d, other)
  {
    FindFinds(d, key);
    FindFinds(d, other);
    if Has(d, key) {
      FindAfterUpdate(d, Find(d, key).value, value, other);
    } else {
      FindSnoc(d, Item(key, value), other);
      GetSnoc(d, Item(key, value), other);
    }
  }

  lemma PutTwice<V>(d: Dict<V>, key: string, v: V, w: V)
    ensures Put(Put(d, key, v), key, w) == Put(d, key, w)
  {
    FindFinds(d, key);
    if Has(d, key) {
      FindAfterUpdate(d, Find(d, key).value, v, key);
    } else {
      FindSnoc(d, Item(key, v), key);
    }
  }

  /** Changing a key that is there commutes with any assignment to another key. */
  lemma PutsCommute<V>(d: Dict<V>, key: string, v: V, other: string, w: V)
    requires Has(d, key) && key != other
    ensures Put(Put(d, key, v), other, w) == Put(Put(d, other, w), key, v)
  {
    FindFinds(d, key);
    FindFinds(d, other);
    var i := Find(d, key).value;
    FindAfterUpdate(d, i, v, other);
    if Has(d, other) {
      FindAfterUpdate(d, Find(d, other).value, w, key);
    } else {
      FindSnoc(d, Item(other, w), key);
    }
  }

  lemma PutBeforeLast<V>(d: Dict<V>, key: string, value: V)
    requires d != [] && d[|d| - 1].key != key && Has(d, key)
    ensures Has(d[..|d| - 1], key)
    ensures Put(d, key, value) == Put(d[..|d| - 1], key, value) + [d[|d| - 1]]
  {
    FindFinds(d, key);
    FindFinds(d[..|d| - 1], key);
  }

  function Keys<V>(d: Dict<V>): seq<string> {
    if d == [] then [] else Keys(d[..|d| - 1]) + [d[|d| - 1].key]
  }

  /** The names of a list, each once, in the order of their first appearance. */
  function FirstAppearances(names: seq<string>): seq<string> {
    if names == [] then []
    else
      var before := FirstAppearances(names[..|names| - 1]);
      if names[|names| - 1] in before then before else before + [names[|names| - 1]]
  }

  lemma {:induction false} KeysAt<V>(d: Dict<V>)
    ensures |Keys(d)| == |d| && forall i :: 0 <= i < |d| ==> Keys(d)[i] == d[i].key
  {
    if d != [] {
      KeysAt(d[..|d| - 1]);
    }
  }

  lemma KeysAfterPut<V>(d: Dict<V>, key: string, value: V)
    ensures Keys(Put(d, key, value)) == if key in Keys(d) then Keys(d) else Keys(d) + [key]
  {
    KeysAt(d);
    KeysAt(Put(d, key, value));
    FindFinds(d, key);
  }

  lemma {:induction false} FirstAppearancesOfDistinct<V>(d: Dict<V>)
    requires Distinct(d)
    ensures FirstAppearances(Keys(d)) == Keys(d)
  {
    if d != [] {
      var before := d[..|d| - 1];
      assert Distinct(before);
      FirstAppearancesOfDistinct(before);
      KeysAt(before);
      assert Keys(d)[..|d| - 1] == Keys(before);
    }
  }

  lemma FirstAppearancesSnoc(names: seq<string>, name: string)
    ensures FirstAppearances(names + [name]) ==
            var before := FirstAppearances(names); if name in before then before else before + [name]
  {
    assert (names + [name])[..|names|] == names;
  }

  lemma {:induction false} FirstAppearancesKept(names: seq<string>, more: seq<string>)
    ensures FirstAppearances(FirstAppearances(names) + more) == FirstAppearances(names + more)
  {
    if more == [] {
      assert names + [] == names;
      assert FirstAppearances(names) + [] == FirstAppearances(names);
      FirstAppearancesTwice(names);
    } else {
      var before, last := more[..|more| - 1], more[|more| - 1];
      FirstAppearancesKept(names, before);
      assert names + more == names + before + [last];
      assert FirstAppearances(names) + more == FirstAppearances(names) + before + [last];
      FirstAppearancesSnoc(names + before, last);
      FirstAppearancesSnoc(FirstAppearances(names) + before, last);
    }
  }

  lemma {:induction false} FirstAppearancesTwice(names: seq<string>)
    ensures FirstAppearances(FirstAppearances(names)) == FirstAppearances(names)
  {
    if names != [] {
      var before, last := names[..|names| - 1], names[|names| - 1];
      FirstAppearancesTwice(before);
      if last !in FirstAppearances(before) {
        FirstAppearancesSnoc(FirstAppearances(before), last);
      }
    }
  }

  /** A dictionary is its keys in order and what each of them maps to. */
  lemma SameKeysSameValues<V>(a: Dict<V>, b: Dict<V>)
    requires Distinct(a) && Keys(a) == Keys(b)
    requires forall key :: Has(a, key) ==> Get(a, key) == Get(b, key)
    ensures a == b
  {
    KeysAt(a);
    KeysAt(b);
    forall i, j | 0 <= i < j < |b|
      ensures b[i].key != b[j].key
    {
      assert Keys(b)[i] != Keys(b)[j];
    }
    forall i | 0 <= i < |a|
      ensures a[i] == b[i]
    {
      assert Keys(a)[i] == Keys(b)[i];
      FindUnique(a, i);
      FindUnique(b, i);
      assert Has(a, a[i].key);
    }
  }
}
