/**
 A mapping merged over a list.  Mappings with text keys only ever fail there, and the tree model says so; an integer
 key, however, is an index to Python, and the merge then assigns into the list in place.
*/
module YamlIndexing {
  import opened Common

  /** A key is text, or an integer (a boolean counts as one). */
  datatype Key = Name(text: string) | Index(n: int)

  /** An item of a list: one that equals an integer, a list, or anything else. */
  datatype Elem = Number(n: int) | Inner(items: seq<Elem>) | Other(text: string)

  /** What the update has for a key: a mapping, or anything else. */
  datatype Entry = Nested | Plain(elem: Elem)

  type Update = seq<(Key, Entry)>

  datatype Error = NotAMapping(key: Key) | BadIndex(key: Key) | NotAList(key: Key)

  /** The position that an index stands for; negative ones count from the end. */
  function Position(n: int, length: nat): Option<nat> {
    if 0 <= n < length then Some(n) else if n < 0 <= n + length then Some(n + length) else None
  }

  /** An index stands for a position when it is that position, or falls short of it by the length. */
  lemma PositionExactly(n: int, length: nat, i: nat)
    ensures Position(n, length) == Some(i) <==> i < length && (n == i || n == i - length)
  {
  }

  /** A list item is to be extended: the index also occurs among the items, and there is a list at its position. */
  predicate ExtendsInner(items: seq<Elem>, n: int, extend: bool) {
    var i := Position(n, |items|);
    extend && Number(n) in items && i.Some? && items[i.value].Inner?
  }

  function AssignItem(items: seq<Elem>, key: Key, v: Entry, extend: bool): Result<seq<Elem>, Error> {
    if v.Nested? then Err(NotAMapping(key))
    else if key.Name? || Position(key.n, |items|).None? then Err(BadIndex(key))
    else
      var i := Position(key.n, |items|).value;
      if ExtendsInner(items, key.n, extend) then
        if v.elem.Inner? then Ok(items[i := Inner(items[i].items + v.elem.items)]) else Err(NotAList(key))
      else Ok(items[i := v.elem])
  }

  /** What the list holds at the end, or when the merge fails. */
  datatype ListRun = ListRun(items: seq<Elem>, error: Option<Error>)

  function Assign(items: seq<Elem>, update: Update, extend: bool): (r: ListRun)
    ensures |r.items| == |items|
  {
    if update == [] then ListRun(items, None)
    else
      var before, last := Assign(items, update[..|update| - 1], extend), update[|update| - 1];
      if before.error.Some? then before
      else match AssignItem(before.items, last.0, last.1, extend)
        case Ok(items') => ListRun(items', None)
        case Err(e) => ListRun(before.items, Some(e))
  }

  lemma {:induction false} ErrorStays(items: seq<Elem>, update: Update, extend: bool, n: nat)
    requires n <= |update| && Assign(items, update[..n], extend).error.Some?
    ensures Assign(items, update, extend) == Assign(items, update[..n], extend)
    decreases |update| - n
  {
    if n < |update| {
      assert update[..n + 1][..n] == update[..n];
      ErrorStays(items, update, extend, n + 1);
    } else {
      assert update[..n] == update;
    }
  }

  /** The recursive update where the configuration is a list: every key is an assignment into it. */
  method UpdateList(list: array<Elem>, update: Update, extend: bool) returns (error: Option<Error>)
    modifies list
    ensures ListRun(list[..], error) == Assign(old(list[..]), update, extend)
  {
    ghost var items := list[..];
    for k := 0 to |update|
      invariant Assign(items, update[..k], extend) == ListRun(list[..], None)
    {
      assert update[..k + 1][..k] == update[..k];
      var key, v := update[k].0, update[k].1;
      if v.Nested? {
        ErrorStays(items, update, extend, k + 1);
        return Some(NotAMapping(key));
      }
      if key.Name? || Position(key.n, list.Length).None? {
        ErrorStays(items, update, extend, k + 1);
        return Some(BadIndex(key));
      }
      var i := Position(key.n, list.Length).value;
      if extend && Number(key.n) in list[..] && list[i].Inner? {
        if !v.elem.Inner? {
          ErrorStays(items, update, extend, k + 1);
          return Some(NotAList(key));
        }
        list[i] := Inner(list[i].items + v.elem.items);
      } else {
        list[i] := v.elem;
      }
    }
    assert update[..|update|] == update;
    error := None;
  }

  // ---------------------------------------------------------------- when it fails, and what it does otherwise

  /** An entry that can be assigned into a list of that length. */
  predicate Assignable(e: (Key, Entry), length: nat) {
    e.0.Index? && Position(e.0.n, length).Some? && e.1.Plain?
  }

  /** The last item put at a position: by the update, or by the list itself. */
  function LastPut(items: seq<Elem>, update: Update, i: nat): Elem
    requires i < |items|
  {
    var last := LastAssigned(update, |items|, i);
    if last.Some? then last.value else items[i]
  }

  /** The last item assigned to a position. */
  function LastAssigned(update: Update, length: nat, i: nat): Option<Elem> {
    if update == [] then None
    else
      var last := update[|update| - 1];
      if Hits(last, length, i) then Some(last.1.elem) else LastAssigned(update[..|update| - 1], length, i)
  }

  predicate Hits(e: (Key, Entry), length: nat, i: nat) {
    Assignable(e, length) && Position(e.0.n, length) == Some(i)
  }

  /** The integer was put somewhere and is there still. */
  ghost predicate Occurs(items: seq<Elem>, update: Update, n: int) {
    exists j :: 0 <= j < |items| && LastPut(items, update, j) == Number(n)
  }

  /** An entry finds a list where it points, and the integer it is among the items; then it extends that list. */
  ghost predicate FindsInner(items: seq<Elem>, update: Update, n: int) {
    var i := Position(n, |items|);
    i.Some? && LastPut(items, update, i.value).Inner? && Occurs(items, update, n)
  }

  /** Entry k would extend a list item with something that is no list. */
  ghost predicate Clashes(items: seq<Elem>, update: Update, k: nat)
    requires k < |update|
  {
    && update[k].0.Index? && FindsInner(items, update[..k], update[k].0.n)
    && !(update[k].1.Plain? && update[k].1.elem.Inner?)
  }

  /** Up to the contents of lists inside it, the list holds what was last put at each position. */
  ghost predicate HoldsLastPut(items: seq<Elem>, update: Update, now: seq<Elem>) {
    && |now| == |items|
    && forall i :: 0 <= i < |items| ==>
         if now[i].Inner? then LastPut(items, update, i).Inner? else now[i] == LastPut(items, update, i)
  }

  lemma LastPutSnoc(items: seq<Elem>, update: Update, e: (Key, Entry), i: nat)
    requires i < |items|
    ensures LastPut(items, update + [e], i) == if Hits(e, |items|, i) then e.1.elem else LastPut(items, update, i)
  {
    assert (update + [e])[..|update|] == update;
  }

  lemma ExtendsExactlyWhereFound(items: seq<Elem>, update: Update, now: seq<Elem>, n: int)
    requires HoldsLastPut(items, update, now)
    ensures ExtendsInner(now, n, true) <==> FindsInner(items, update, n)
  {
    hide LastPut;
    if Number(n) in now {
      var j :| 0 <= j < |now| && now[j] == Number(n);
      assert LastPut(items, update, j) == Number(n);
    }
    if Occurs(items, update, n) {
      var j :| 0 <= j < |items| && LastPut(items, update, j) == Number(n);
      assert now[j] == Number(n);
    }
  }

  lemma {:induction false} StepHoldsLastPut(items: seq<Elem>, update: Update, e: (Key, Entry), extend: bool,
        now: seq<Elem>)
    requires HoldsLastPut(items, update, now) && AssignItem(now, e.0, e.1, extend).Ok?
    ensures HoldsLastPut(items, update + [e], AssignItem(now, e.0, e.1, extend).value)
  {
    var p, next := Position(e.0.n, |now|).value, AssignItem(now, e.0, e.1, extend).value;
    assert |next| == |now| && forall i :: 0 <= i < |now| && i != p ==> next[i] == now[i];
    assert if next[p].Inner? then e.1.elem.Inner? else next[p] == e.1.elem;
    hide LastPut, AssignItem, ExtendsInner;
    forall i | 0 <= i < |items|
      ensures if next[i].Inner? then LastPut(items, update + [e], i).Inner?
              else next[i] == LastPut(items, update + [e], i)
    {
      LastPutSnoc(items, update, e, i);
      assert Hits(e, |items|, i) <==> i == p;
    }
  }

  lemma {:induction false} AssignHoldsLastPut(items: seq<Elem>, update: Update, extend: bool)
    requires Assign(items, update, extend).error.None?
    ensures HoldsLastPut(items, update, Assign(items, update, extend).items)
  {
    if update != [] {
      var before, last := update[..|update| - 1], update[|update| - 1];
      hide HoldsLastPut, AssignItem;
      AssignHoldsLastPut(items, before, extend);
      StepHoldsLastPut(items, before, last, extend, Assign(items, before, extend).items);
      assert before + [last] == update;
    } else {
      NothingPut(items);
    }
  }

  lemma NothingPut(items: seq<Elem>)
    ensures HoldsLastPut(items, [], items)
  {
  }

  /**
   A mapping over a list fails exactly when one of its keys is not an integer in range, or has a mapping for a value,
   or, extending lists, would extend a list item with something that is no list.
   */
  lemma {:induction false} FailsExactly(items: seq<Elem>, update: Update, extend: bool)
    ensures Assign(items, update, extend).error.None? <==>
            forall k :: 0 <= k < |update| ==> Assignable(update[k], |items|) && !(extend && Clashes(items, update, k))
  {
    hide FindsInner;
    if update != [] {
      var last := |update| - 1;
      FailsExactly(items, update[..last], extend);
      forall k | 0 <= k < last
        ensures update[..last][k] == update[k] && update[..last][..k] == update[..k]
      {
      }
      var before := Assign(items, update[..last], extend);
      if before.error.None? && update[last].0.Index? {
        AssignHoldsLastPut(items, update[..last], extend);
        ExtendsExactlyWhereFound(items, update[..last], before.items, update[last].0.n);
      }
    }
  }

  /** The first entry that fails, and the error for it. */
  ghost predicate FailsFirst(items: seq<Elem>, update: Update, extend: bool, k: nat, e: Error)
    requires k < |update|
  {
    && (forall j :: 0 <= j < k ==> Assignable(update[j], |items|) && !(extend && Clashes(items, update, j)))
    && e == (if update[k].1.Nested? then NotAMapping(update[k].0)
             else if !Assignable(update[k], |items|) then BadIndex(update[k].0) else NotAList(update[k].0))
    && (Assignable(update[k], |items|) ==> extend && Clashes(items, update, k))
  }

  /** The error is that of the first entry that fails; what came before it has been assigned. */
  lemma {:induction false} FailsAtTheFirst(items: seq<Elem>, update: Update, extend: bool) returns (k: nat)
    requires Assign(items, update, extend).error.Some?
    ensures k < |update| && FailsFirst(items, update, extend, k, Assign(items, update, extend).error.value)
    ensures Assign(items, update, extend).items == Assign(items, update[..k], extend).items
  {
    hide FindsInner;
    var last := |update| - 1;
    var before := Assign(items, update[..last], extend);
    if before.error.Some? {
      k := FailsAtTheFirst(items, update[..last], extend);
      assert update[..last][..k] == update[..k];
      forall j | 0 <= j <= k
        ensures update[..last][j] == update[j] && update[..last][..j] == update[..j]
      {
      }
    } else {
      k := last;
      FailsExactly(items, update[..last], extend);
      forall j | 0 <= j < k
        ensures update[..last][j] == update[j] && update[..last][..j] == update[..j]
      {
      }
      if update[last].0.Index? {
        AssignHoldsLastPut(items, update[..last], extend);
        ExtendsExactlyWhereFound(items, update[..last], before.items, update[last].0.n);
      }
    }
  }

  /** What an entry makes of an item: a list extends a list, anything else replaces. */
  function Joined(now: Elem, e: Elem): Elem {
    if now.Inner? && e.Inner? then Inner(now.items + e.items) else e
  }

  /** The item at a position after an update, from what the update has for that position. */
  ghost function ItemAfter(items: seq<Elem>, update: Update, extend: bool, i: nat): Elem
    requires i < |items|
  {
    if update == [] then items[i]
    else
      var before, last := update[..|update| - 1], update[|update| - 1];
      if !Hits(last, |items|, i) then ItemAfter(items, before, extend, i)
      else if extend && FindsInner(items, before, last.0.n) then
        Joined(ItemAfter(items, before, extend, i), last.1.elem)
      else last.1.elem
  }

  /** Where the merge does not fail, every item is replaced, extended or kept accordingly, in both modes. */
  lemma {:induction false} EveryItem(items: seq<Elem>, update: Update, extend: bool, i: nat)
    requires Assign(items, update, extend).error.None? && i < |items|
    ensures Assign(items, update, extend).items[i] == ItemAfter(items, update, extend, i)
  {
    hide FindsInner;
    if update != [] {
      var before, last := update[..|update| - 1], update[|update| - 1];
      EveryItem(items, before, extend, i);
      AssignHoldsLastPut(items, before, extend);
      ExtendsExactlyWhereFound(items, before, Assign(items, before, extend).items, last.0.n);
    }
  }

  /** Without extending lists that is the last item assigned to the position. */
  lemma {:induction false} ItemsAreReplaced(items: seq<Elem>, update: Update, i: nat)
    requires Assign(items, update, false).error.None? && i < |items|
    ensures Assign(items, update, false).items[i] == LastPut(items, update, i)
  {
    if update != [] {
      ItemsAreReplaced(items, update[..|update| - 1], i);
    }
  }

  /** Text keys fail at once, as they do in the tree model. */
  lemma {:induction false} TextKeysFail(items: seq<Elem>, update: Update, extend: bool)
    requires update != [] && update[0].0.Name?
    ensures Assign(items, update, extend).error.Some? && Assign(items, update, extend).items == items
  {
    assert update[..1][..0] == [];
    assert Assign(items, update[..0], extend) == ListRun(items, None);
    ErrorStays(items, update, extend, 1);
  }

  /** An item that an index names is lost without an error, also when lists are extended. */
  lemma ItemIsLost(x: string, y: string, z: string, extend: bool)
    ensures Assign([Other(x), Other(y)], [(Index(0), Plain(Other(z)))], extend) == ListRun([Other(z), Other(y)], None)
  {
    assert [(Index(0), Plain(Other(z)))][..0] == [];
  }

  // ---------------------------------------------------------------- grouping of sources

  /** A list without lists in it. */
  ghost predicate Flat(items: seq<Elem>) {
    forall i :: 0 <= i < |items| ==> !items[i].Inner?
  }

  /** Extending a list and then assigning to it is assigning to the extension and then extending. */
  ghost predicate GroupingsAgree(a: seq<Elem>, b: seq<Elem>, update: Update) {
    Assign(a + b, update, true).items == a + Assign(b, update, true).items
  }

  /** No item before the extension is anything else than it was. */
  ghost predicate BaseStays(a: seq<Elem>, b: seq<Elem>, update: Update) {
    forall i :: 0 <= i < |a| ==> ItemAfter(a + b, update, true, i) == a[i]
  }

  /** Every item of the extension becomes what it becomes by itself. */
  ghost predicate ExtensionAlike(a: seq<Elem>, b: seq<Elem>, update: Update) {
    forall i :: |a| <= i < |a + b| ==> ItemAfter(a + b, update, true, i) == ItemAfter(b, update, true, i - |a|)
  }

  lemma {:induction false} BaseStaysExactly(a: seq<Elem>, b: seq<Elem>, update: Update)
    requires Assign(a + b, update, true).error.None?
    ensures BaseStays(a, b, update) <==> Assign(a + b, update, true).items[..|a|] == a
  {
    hide Assign, ItemAfter;
    var left := Assign(a + b, update, true).items;
    forall i | 0 <= i < |a|
      ensures left[..|a|][i] == ItemAfter(a + b, update, true, i)
    {
      EveryItem(a + b, update, true, i);
    }
  }

  lemma {:induction false} ExtensionAlikeExactly(a: seq<Elem>, b: seq<Elem>, update: Update)
    requires Assign(a + b, update, true).error.None? && Assign(b, update, true).error.None?
    ensures ExtensionAlike(a, b, update) <==>
            Assign(a + b, update, true).items[|a|..] == Assign(b, update, true).items
  {
    hide Assign, ItemAfter;
    var left, right := Assign(a + b, update, true).items, Assign(b, update, true).items;
    forall i | |a| <= i < |a + b|
      ensures left[|a|..][i - |a|] == ItemAfter(a + b, update, true, i)
      ensures right[i - |a|] == ItemAfter(b, update, true, i - |a|)
    {
      EveryItem(a + b, update, true, i);
      EveryItem(b, update, true, i - |a|);
    }
    if ExtensionAlike(a, b, update) {
      forall j | 0 <= j < |b|
        ensures left[|a|..][j] == right[j]
      {
        assert ItemAfter(a + b, update, true, |a| + j) == ItemAfter(b, update, true, |a| + j - |a|);
      }
    }
  }

  /** For any lists and any update on which both succeed, the groupings agree exactly when they do item by item. */
  lemma {:induction false} GroupingsAgreeItemByItem(a: seq<Elem>, b: seq<Elem>, update: Update)
    requires Assign(a + b, update, true).error.None? && Assign(b, update, true).error.None?
    ensures GroupingsAgree(a, b, update) <==> BaseStays(a, b, update) && ExtensionAlike(a, b, update)
  {
    hide Assign, BaseStays, ExtensionAlike;
    var left, right := Assign(a + b, update, true).items, Assign(b, update, true).items;
    BaseStaysExactly(a, b, update);
    ExtensionAlikeExactly(a, b, update);
    assert left == left[..|a|] + left[|a|..];
    assert (a + right)[..|a|] == a && (a + right)[|a|..] == right;
  }

  /** The same for a single assignment. */
  ghost predicate GroupingAgrees(a: seq<Elem>, b: seq<Elem>, n: int, e: Elem) {
    GroupingsAgree(a, b, [(Index(n), Plain(e))])
  }

  lemma AssignOne(items: seq<Elem>, n: int, e: Elem)
    requires Flat(items) && Position(n, |items|).Some?
    ensures Assign(items, [(Index(n), Plain(e))], true) == ListRun(items[Position(n, |items|).value := e], None)
  {
    assert [(Index(n), Plain(e))][..0] == [];
  }

  /** One assignment hits the same item in both groupings, or two that are as far apart as the base list is long. */
  lemma GroupedPositions(a: seq<Elem>, b: seq<Elem>, n: int, e: Elem)
    requires Flat(a) && Flat(b) && Position(n, |b|).Some?
    ensures Position(n, |a + b|).Some?
    ensures Position(n, |a + b|).value == if n < 0 then |a| + Position(n, |b|).value else n
    ensures GroupingAgrees(a, b, n, e) <==>
            (a + b)[Position(n, |a + b|).value := e] == (a + b)[|a| + Position(n, |b|).value := e]
  {
    assert Flat(a + b);
    AssignOne(a + b, n, e);
    AssignOne(b, n, e);
    assert a + b[Position(n, |b|).value := e] == (a + b)[|a| + Position(n, |b|).value := e];
  }

  /**
   For given lists and one index in range of the extension: the grouping makes no difference exactly when the index
   counts from the end, or there is nothing before the extension, or the item is at both positions already.
   */
  lemma {:induction false} GroupingAgreesFor(a: seq<Elem>, b: seq<Elem>, n: int, e: Elem)
    requires Flat(a) && Flat(b) && Position(n, |b|).Some?
    ensures GroupingAgrees(a, b, n, e) <==> n < 0 || a == [] || ((a + b)[n] == e && b[n] == e)
  {
    hide GroupingAgrees;
    GroupedPositions(a, b, n, e);
    if 0 <= n && a != [] {
      var all := a + b;
      assert all[n := e][n] == e && all[|a| + n := e][|a| + n] == e;
      assert all[|a| + n := e][n] == all[n] && all[n := e][|a| + n] == all[|a| + n] == b[n];
    }
  }

  /**
   For an index that is in range, the grouping makes no difference for any items exactly when the index counts from
   the end or there is nothing before the extension.
   */
  lemma {:induction false} GroupingAgreesExactly(before: nat, extension: nat, n: int)
    requires Position(n, extension).Some?
    ensures (forall a: seq<Elem>, b: seq<Elem>, e ::
               |a| == before && |b| == extension && Flat(a) && Flat(b) ==> GroupingAgrees(a, b, n, e))
            <==> n < 0 || before == 0
  {
    hide Assign, GroupingAgrees;
    if n < 0 || before == 0 {
      forall a: seq<Elem>, b: seq<Elem>, e | |a| == before && |b| == extension && Flat(a) && Flat(b)
        ensures GroupingAgrees(a, b, n, e)
      {
        GroupedPositions(a, b, n, e);
      }
    } else {
      var a, b, e := seq(before, _ => Other("")), seq(extension, _ => Other("")), Number(0);
      GroupedPositions(a, b, n, e);
      assert (a + b)[n := e][n] != (a + b)[before + n := e][n];
      assert !GroupingAgrees(a, b, n, e);
    }
  }

  /** With integer keys the grouping of sources matters: extend then index, or index then extend. */
  lemma IndexingDoesNotAssociate(x: string, y: string, z: string)
    requires x != z
    ensures var update := [(Index(0), Plain(Other(z)))];
            var left, right := Assign([Other(x)] + [Other(y)], update, true), Assign([Other(y)], update, true);
            && left.error.None? && right.error.None?
            && left.items == [Other(z), Other(y)] && [Other(x)] + right.items == [Other(x), Other(z)]
            && left.items != [Other(x)] + right.items
  {
    assert [(Index(0), Plain(Other(z)))][..0] == [];
    assert [Other(x)] + [Other(y)] == [Other(x), Other(y)];
  }
}
