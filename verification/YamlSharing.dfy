/**
 What in-place extension does to list objects that stand in more than one place: exactly when the result is still what
 merging values gives.
*/
module YamlSharing {
  import opened Common
  import opened OrderedDict
  import opened YamlTree
  import opened YamlObjects

  // ---------------------------------------------------------------- extending lists: outcome and shape

  /** Whether and how a merge fails is up to the kinds of nodes, not to what lists hold. */
  ghost predicate SameOutcome(a: Result<Merged<Objects>, MergeError>, b: Result<Config, MergeError>) {
    if a.Ok? then b.Ok? else b == Err(a.error)
  }

  ghost predicate SameEntryOutcome(a: Result<Merged<Node<Ref>>, MergeError>, b: Result<Tree, MergeError>) {
    if a.Ok? then b.Ok? else b == Err(a.error)
  }

  lemma {:induction false} OutcomeIsShared(conf: Objects, update: Objects, lists: Lists, other: Lists)
    requires Tidy(conf) && Tidy(update)
    ensures SameOutcome(UpdateObjects(conf, update, true, lists), Update(View(conf, other), View(update, other), true))
    decreases update, 1
  {
    hide Tidy, TidyNode, WellFormed, ViewNode, UpdateObject, UpdateEntry, Put, Get, Has, Find;
    ViewEmpty(other);
    if update != [] {
      var before, last := update[..|update| - 1], update[|update| - 1];
      TidySplit(update);
      OutcomeIsShared(conf, before, lists, other);
      ViewBefore(update, other);
      if UpdateObjects(conf, before, true, lists).Ok? {
        OtherKeysStay(conf, before, true, lists, last.key);
        TidyView(conf, other);
        TidyView(before, other);
        KeyByKey(View(conf, other), View(before, other), true, last.key);
        AbsentInView(before, other, last.key);
        FindInView(conf, other, last.key);
        HasIsGet(conf, last.key);
        if Has(conf, last.key) {
          TidyGet(conf, last.key);
        }
        EntryOutcomeIsShared(last.key, Get(conf, last.key), last.value,
                             UpdateObjects(conf, before, true, lists).value.lists, other);
      }
    }
  }

  lemma AbsentInView(d: Objects, lists: Lists, key: string)
    ensures Has(View(d, lists), key) <==> Has(d, key)
  {
    FindInView(d, lists, key);
  }

  lemma {:induction false} EntryOutcomeIsShared(key: string, was: Option<Node<Ref>>, v: Node<Ref>, lists: Lists,
                                                other: Lists)
    requires TidyOption(was) && TidyNode(v)
    ensures SameEntryOutcome(UpdateObject(key, was, v, true, lists),
            UpdateEntry(key, ViewOption(was, other), ViewNode(v, other), true))
    decreases v
  {
    hide Tidy, UpdateObjects, Update, View;
    ViewEmpty(other);
    TidyEmpty();
    if v.Mapping? {
      ViewAt(v.entries, other);
      if was.None? || was.value.Mapping? {
        OutcomeIsShared(Below(was), v.entries, lists, other);
      }
    }
  }

  /** The node that a merge makes of a key; it is the same whatever the lists hold. */
  function MergedNode(key: string, was: Option<Node<Ref>>, v: Node<Ref>): Option<Node<Ref>> {
    var m := UpdateObject(key, was, v, true, []);
    if m.Ok? then Some(m.value.value) else None
  }

  lemma {:induction false} ShapeIsShared(conf: Objects, update: Objects, lists: Lists, other: Lists)
    ensures var a, b := UpdateObjects(conf, update, true, lists), UpdateObjects(conf, update, true, other);
      (a.Ok? <==> b.Ok?) && (a.Ok? ==> a.value.value == b.value.value)
    decreases update, 1
  {
    hide UpdateObject, Put, Get, Has, Find;
    if update != [] {
      var before, last := update[..|update| - 1], update[|update| - 1];
      ShapeIsShared(conf, before, lists, other);
      var a, b := UpdateObjects(conf, before, true, lists), UpdateObjects(conf, before, true, other);
      if a.Ok? {
        EntryShapeIsShared(last.key, Get(a.value.value, last.key), last.value, a.value.lists, b.value.lists);
      }
    }
  }

  lemma {:induction false} EntryShapeIsShared(key: string, was: Option<Node<Ref>>, v: Node<Ref>, lists: Lists,
                                              other: Lists)
    ensures var a, b := UpdateObject(key, was, v, true, lists), UpdateObject(key, was, v, true, other);
      (a.Ok? <==> b.Ok?) && (a.Ok? ==> a.value.value == b.value.value)
    decreases v
  {
    hide UpdateObjects;
    if v.Mapping? && (was.None? || was.value.Mapping?) {
      ShapeIsShared(Below(was), v.entries, lists, other);
    }
  }

  lemma {:induction false} MergedKeyByKey(conf: Objects, update: Objects, lists: Lists, key: string)
    requires Tidy(conf) && Tidy(update) && UpdateObjects(conf, update, true, lists).Ok?
    ensures Get(UpdateObjects(conf, update, true, lists).value.value, key) ==
      if Has(update, key) then MergedNode(key, Get(conf, key), Get(update, key).value) else Get(conf, key)
    ensures Has(update, key) ==> MergedNode(key, Get(conf, key), Get(update, key).value).Some?
  {
    hide Tidy, TidyNode, UpdateObject;
    if update != [] {
      var before, last := update[..|update| - 1], update[|update| - 1];
      TidySplit(update);
      MergedKeyByKey(conf, before, lists, key);
      MergedKeyByKey(conf, before, lists, last.key);
      MergeKeeps(conf, before, true, lists);
      var c := UpdateObjects(conf, before, true, lists).value;
      TidyIsDistinct(c.value);
      EntryShapeIsShared(last.key, Get(c.value, last.key), last.value, c.lists, []);
      var v := UpdateObject(last.key, Get(c.value, last.key), last.value, true, c.lists).value.value;
      GetPut(c.value, last.key, v, key);
      FindSnoc(before, last, key);
      GetSnoc(before, last, key);
    }
  }

  lemma {:induction false} ObjectsOrder(conf: Objects, update: Objects, lists: Lists)
    requires Tidy(conf) && Tidy(update) && UpdateObjects(conf, update, true, lists).Ok?
    ensures Keys(UpdateObjects(conf, update, true, lists).value.value) == MergedKeys(Keys(conf), Keys(update))
  {
    hide Tidy, TidyNode, UpdateObject, Put, Get, FirstAppearances, Find, Has, Distinct;
    if update == [] {
      assert Keys(conf) + Keys(update) == Keys(conf);
      TidyIsDistinct(conf);
      FirstAppearancesOfDistinct(conf);
    } else {
      var before, last := update[..|update| - 1], update[|update| - 1];
      TidySplit(update);
      ObjectsOrder(conf, before, lists);
      var c := UpdateObjects(conf, before, true, lists).value;
      var v := UpdateObject(last.key, Get(c.value, last.key), last.value, true, c.lists).value.value;
      KeysAfterPut(c.value, last.key, v);
      OneMoreName(Keys(conf), Keys(before), last.key);
    }
  }

  lemma {:induction false} KeysOfView(d: Objects, lists: Lists)
    ensures Keys(View(d, lists)) == Keys(d)
  {
    hide ViewNode;
    if d != [] {
      KeysOfView(d[..|d| - 1], lists);
      ViewBefore(d, lists);
    }
  }

  // ---------------------------------------------------------------- extending lists: what every list has to hold

  /** The update replaces nothing on the way to a path. */
  predicate Stays(update: Objects, path: seq<string>)
    requires path != []
    decreases |path|
  {
    var v := Get(update, path[0]);
    v.None? || |path| == 1 || (v.value.Mapping? && Stays(v.value.entries, path[1..]))
  }

  /** List object r stands at a path of the configuration, and still does after the merge. */
  predicate Stands(conf: Objects, update: Objects, path: seq<string>, r: Ref) {
    path != [] && At(conf, path) == Some(Node.List(r)) && Stays(update, path)
  }

  function ItemsOfOption(v: Option<Node<Ref>>, lists: Lists): seq<string> {
    if v.Some? && v.value.List? then ItemsOf(lists, v.value.items) else []
  }

  /** The items that the update has for a path. */
  function Supplied(update: Objects, path: seq<string>, lists: Lists): seq<string> {
    if path == [] then [] else ItemsOfOption(At(update, path), lists)
  }

  /** Afterwards every list that still stands holds what it held and what the update has for its place. */
  ghost predicate Fits(conf: Objects, update: Objects, lists: Lists, after: Lists) {
    forall path: seq<string>, r: Ref :: Stands(conf, update, path, r) ==>
      ItemsOf(after, r) == ItemsOf(lists, r) + Supplied(update, path, lists)
  }

  /** The same for one key. */
  ghost predicate FitsNode(was: Option<Node<Ref>>, v: Option<Node<Ref>>, lists: Lists, after: Lists) {
    if was.None? then true
    else match was.value
      case Mapping(c) => (v.Some? && !v.value.Mapping?) || Fits(c, Below(v), lists, after)
      case List(r) => ItemsOf(after, r) == ItemsOf(lists, r) + ItemsOfOption(v, lists)
      case Scalar(_) => true
  }

  lemma StandsBelow(conf: Objects, update: Objects, key: string, path: seq<string>, r: Ref, lists: Lists)
    requires path != [] && Get(conf, key).Some? && Get(conf, key).value.Mapping?
    requires Get(update, key).Some? ==> Get(update, key).value.Mapping?
    ensures Stands(conf, update, [key] + path, r) <==> Stands(Below(Get(conf, key)), Below(Get(update, key)), path, r)
    ensures Supplied(update, [key] + path, lists) == Supplied(Below(Get(update, key)), path, lists)
  {
    hide Get;
    assert ([key] + path)[1..] == path;
    NoKeys(path[0]);
  }

  lemma NoKeys(key: string)
    ensures Get<Node<Ref>>([], key).None?
  {
  }

  lemma {:induction false} FitsByKey(conf: Objects, update: Objects, lists: Lists, after: Lists)
    ensures Fits(conf, update, lists, after) <==> forall key :: FitsNode(Get(conf, key), Get(update, key), lists, after)
  {
    hide Get, Stands, Supplied;
    if Fits(conf, update, lists, after) {
      forall key
        ensures FitsNode(Get(conf, key), Get(update, key), lists, after)
      {
        KeyFits(conf, update, lists, after, key);
      }
    }
    if forall key :: FitsNode(Get(conf, key), Get(update, key), lists, after) {
      forall path: seq<string>, r: Ref | Stands(conf, update, path, r)
        ensures ItemsOf(after, r) == ItemsOf(lists, r) + Supplied(update, path, lists)
      {
        PathNotEmpty(conf, update, path, r);
        assert FitsNode(Get(conf, path[0]), Get(update, path[0]), lists, after);
        PlaceFits(conf, update, lists, after, path, r);
      }
    }
  }

  lemma PathNotEmpty(conf: Objects, update: Objects, path: seq<string>, r: Ref)
    requires Stands(conf, update, path, r)
    ensures path != []
  {
  }

  lemma KeyFits(conf: Objects, update: Objects, lists: Lists, after: Lists, key: string)
    requires Fits(conf, update, lists, after)
    ensures FitsNode(Get(conf, key), Get(update, key), lists, after)
  {
    hide Get;
    var was, v := Get(conf, key), Get(update, key);
    if was.Some? && was.value.List? {
      assert Stands(conf, update, [key], was.value.items);
    } else if was.Some? && was.value.Mapping? && (v.None? || v.value.Mapping?) {
      forall path: seq<string>, r: Ref | Stands(was.value.entries, Below(v), path, r)
        ensures ItemsOf(after, r) == ItemsOf(lists, r) + Supplied(Below(v), path, lists)
      {
        StandsBelow(conf, update, key, path, r, lists);
      }
    }
  }

  lemma PlaceFits(conf: Objects, update: Objects, lists: Lists, after: Lists, path: seq<string>, r: Ref)
    requires Stands(conf, update, path, r) && FitsNode(Get(conf, path[0]), Get(update, path[0]), lists, after)
    ensures ItemsOf(after, r) == ItemsOf(lists, r) + Supplied(update, path, lists)
  {
    hide Get;
    var key := path[0];
    if |path| > 1 {
      assert [key] + path[1..] == path;
      StandsBelow(conf, update, key, path[1..], r, lists);
    }
  }

  // ---------------------------------------------------------------- extending lists: when the views agree

  /** The lists that the update brings are as they were. */
  ghost predicate Unmoved(update: Objects, lists: Lists, after: Lists) {
    forall r :: r in RefsOf(update) ==> ItemsOf(after, r) == ItemsOf(lists, r)
  }

  /** The merged objects stand for the merged values exactly when every list holds what its place calls for. */
  lemma {:induction false} ViewsAgreeExactly(conf: Objects, update: Objects, lists: Lists, after: Lists)
    requires Tidy(conf) && Tidy(update) && UpdateObjects(conf, update, true, lists).Ok? && Unmoved(update, lists, after)
    ensures Update(View(conf, lists), View(update, lists), true).Ok?
    ensures View(UpdateObjects(conf, update, true, lists).value.value, after) ==
            Update(View(conf, lists), View(update, lists), true).value
            <==> Fits(conf, update, lists, after)
    decreases conf, update, 1
  {
    hide Tidy, WellFormed, View, Update, UpdateObjects, Get, Has, Find, Keys, Fits, FitsNode, Unmoved;
    OutcomeIsShared(conf, update, lists, lists);
    var m := UpdateObjects(conf, update, true, lists).value;
    var a, b := View(m.value, after), Update(View(conf, lists), View(update, lists), true).value;
    forall key
      ensures Get(a, key) == Get(b, key) <==> FitsNode(Get(conf, key), Get(update, key), lists, after)
    {
      FindInView(m.value, after, key);
      KeyAgreesExactly(conf, update, lists, after, key);
    }
    FitsByKey(conf, update, lists, after);
    MergeKeeps(conf, update, true, lists);
    TidyView(m.value, after);
    WellFormedIsDistinct(a);
    ObjectsOrder(conf, update, lists);
    TidyView(conf, lists);
    TidyView(update, lists);
    MergedOrder(View(conf, lists), View(update, lists), true);
    KeysOfView(conf, lists);
    KeysOfView(update, lists);
    KeysOfView(m.value, after);
    if forall key :: Get(a, key) == Get(b, key) {
      SameKeysSameValues(a, b);
    }
  }

  lemma {:induction false} KeyAgreesExactly(conf: Objects, update: Objects, lists: Lists, after: Lists, key: string)
    requires Tidy(conf) && Tidy(update) && UpdateObjects(conf, update, true, lists).Ok? && Unmoved(update, lists, after)
    requires Update(View(conf, lists), View(update, lists), true).Ok?
    ensures ViewOption(Get(UpdateObjects(conf, update, true, lists).value.value, key), after) ==
            Get(Update(View(conf, lists), View(update, lists), true).value, key)
            <==> FitsNode(Get(conf, key), Get(update, key), lists, after)
    decreases conf, update, 0
  {
    hide Tidy, WellFormed, View, Update, UpdateObjects, Keys, Fits, Unmoved;
    TidyView(conf, lists);
    TidyView(update, lists);
    KeyByKey(View(conf, lists), View(update, lists), true, key);
    MergedKeyByKey(conf, update, lists, key);
    FindInView(conf, lists, key);
    FindInView(update, lists, key);
    AbsentInView(update, lists, key);
    HasIsGet(conf, key);
    HasIsGet(update, key);
    FindFinds(conf, key);
    FindFinds(update, key);
    var was, v := Get(conf, key), Get(update, key);
    if was.Some? {
      TidyGet(conf, key);
    }
    if v.Some? {
      TidyGet(update, key);
      RefsOfGet(update, key);
      UnmovedBelow(update, v.value, lists, after);
    }
    TidyEmpty();
    ViewEmpty(lists);
    NothingUnmoved(lists, after);
    assert was.Some? && was.value.List? ==> ItemsOf(lists, was.value.items) + [] == ItemsOf(lists, was.value.items);
    if (was.None? || was.value.Mapping?) && v.Some? && v.value.Mapping? {
      MergedMapping(key, was, v.value, lists);
      assert conf[..0] == [];
      ViewsAgreeExactly(Below(was), v.value.entries, lists, after);
      NothingStands(v.value.entries, lists, after);
    } else if was.Some? && was.value.Mapping? && v.None? {
      NothingMerged(was.value.entries, lists);
      ViewsAgreeExactly(was.value.entries, [], lists, after);
    } else if v.Some? && v.value.Mapping? {
      ViewAt(v.value.entries, lists);
    }
  }

  lemma UnmovedBelow(update: Objects, v: Node<Ref>, lists: Lists, after: Lists)
    requires Unmoved(update, lists, after) && RefsOfNode(v) <= RefsOf(update)
    ensures v.Mapping? ==> Unmoved(v.entries, lists, after)
    ensures v.List? ==> ItemsOf(after, v.items) == ItemsOf(lists, v.items)
  {
  }

  lemma NothingUnmoved(lists: Lists, after: Lists)
    ensures Unmoved([], lists, after)
  {
  }

  lemma MergedMapping(key: string, was: Option<Node<Ref>>, v: Node<Ref>, lists: Lists)
    requires v.Mapping? && (was.None? || was.value.Mapping?) && MergedNode(key, was, v).Some?
    ensures UpdateObjects(Below(was), v.entries, true, lists).Ok?
    ensures MergedNode(key, was, v) == Some(Mapping(UpdateObjects(Below(was), v.entries, true, lists).value.value))
  {
    ShapeIsShared(Below(was), v.entries, lists, []);
  }

  lemma NothingStands(update: Objects, lists: Lists, after: Lists)
    ensures Fits([], update, lists, after)
  {
    forall path: seq<string>, r: Ref | Stands([], update, path, r)
      ensures false
    {
      NoKeys(path[0]);
    }
  }

  lemma NothingMerged(conf: Objects, lists: Lists)
    ensures UpdateObjects(conf, [], true, lists) == Ok(Merged(conf, lists))
    ensures Update(View(conf, lists), View([], lists), true) == Ok(View(conf, lists))
  {
  }

  // ---------------------------------------------------------------- extending lists: what is appended to a list object

  function GrownAt(was: Option<Node<Ref>>, v: Node<Ref>, lists: Lists, r: Ref): seq<string>
    decreases v
  {
    match v
    case Mapping(u) => Grown(Below(was), u, lists, r)
    case List(s) => if was == Some(Node.List(r)) then ItemsOf(lists, s) else []
    case Scalar(_) => []
  }

  /** Everything a merge appends to list object r, in order. */
  function Grown(conf: Objects, update: Objects, lists: Lists, r: Ref): seq<string>
    decreases update
  {
    if update == [] then []
    else
      Grown(conf, update[..|update| - 1], lists, r) +
      GrownAt(Get(conf, update[|update| - 1].key), update[|update| - 1].value, lists, r)
  }

  lemma RefsBelow(v: Option<Node<Ref>>)
    ensures RefsOf(Below(v)) <= RefsOfOption(v)
  {
    NoRefs();
  }

  lemma RefsOfGetOption(d: Objects, key: string)
    ensures RefsOfOption(Get(d, key)) <= RefsOf(d)
  {
    if Has(d, key) {
      RefsOfGet(d, key);
    }
  }

  /** Only lists of the configuration grow. */
  lemma {:induction false} GrownInside(conf: Objects, update: Objects, lists: Lists, r: Ref)
    requires r !in RefsOf(conf)
    ensures Grown(conf, update, lists, r) == []
    decreases update
  {
    hide RefsOf, Get;
    if update != [] {
      var last := update[|update| - 1];
      GrownInside(conf, update[..|update| - 1], lists, r);
      RefsOfGetOption(conf, last.key);
      RefsBelow(Get(conf, last.key));
      if last.value.Mapping? {
        GrownInside(Below(Get(conf, last.key)), last.value.entries, lists, r);
      }
    }
  }

  /** What is appended depends on the update's lists alone. */
  lemma {:induction false} GrownFrame(conf: Objects, update: Objects, lists: Lists, other: Lists, r: Ref)
    requires Unmoved(update, lists, other)
    ensures Grown(conf, update, lists, r) == Grown(conf, update, other, r)
    decreases update, 1
  {
    hide Get;
    if update != [] {
      var last := update[|update| - 1];
      GrownFrame(conf, update[..|update| - 1], lists, other, r);
      RefsOfEntry(update, |update| - 1);
      GrownAtFrame(Get(conf, last.key), last.value, lists, other, r);
    }
  }

  lemma {:induction false} GrownAtFrame(was: Option<Node<Ref>>, v: Node<Ref>, lists: Lists, other: Lists, r: Ref)
    requires forall s :: s in RefsOfNode(v) ==> ItemsOf(other, s) == ItemsOf(lists, s)
    ensures GrownAt(was, v, lists, r) == GrownAt(was, v, other, r)
    decreases v, 0
  {
    if v.Mapping? {
      GrownFrame(Below(was), v.entries, lists, other, r);
    }
  }

  /** The list objects of the configuration exist, and the update brings others. */
  ghost predicate ApartFrom(conf: set<Ref>, update: set<Ref>, lists: Lists) {
    conf !! update && forall r :: r in conf ==> r < |lists|
  }

  ghost predicate AppendedAll(lists: Lists, after: Lists, conf: Objects, update: Objects) {
    forall r :: ItemsOf(after, r) == ItemsOf(lists, r) + Grown(conf, update, lists, r)
  }

  ghost predicate AppendedAt(lists: Lists, after: Lists, was: Option<Node<Ref>>, v: Node<Ref>) {
    forall r :: ItemsOf(after, r) == ItemsOf(lists, r) + GrownAt(was, v, lists, r)
  }

  lemma {:induction false} MergeAppends(conf: Objects, update: Objects, lists: Lists)
    requires Tidy(conf) && Tidy(update) && UpdateObjects(conf, update, true, lists).Ok?
    requires ApartFrom(RefsOf(conf), RefsOf(update), lists)
    ensures AppendedAll(lists, UpdateObjects(conf, update, true, lists).value.lists, conf, update)
    decreases update, 1
  {
    hide Tidy, TidyNode, TidyOption, RefsOf, RefsOfNode, UpdateObject, Get, Put, Has, Find, Grown, GrownAt, AppendedAt;
    if update != [] {
      var before, last := update[..|update| - 1], update[|update| - 1];
      TidySplit(update);
      RefsSplit(update);
      MergeAppends(conf, before, lists);
      OtherKeysStay(conf, before, true, lists, last.key);
      MergeKeeps(conf, before, true, lists);
      var l1 := UpdateObjects(conf, before, true, lists).value.lists;
      RefsOfGetOption(conf, last.key);
      TidyGetOption(conf, last.key);
      EntryAppends(last.key, Get(conf, last.key), last.value, l1);
      forall s | s in RefsOfNode(last.value)
        ensures ItemsOf(l1, s) == ItemsOf(lists, s)
      {
        GrownInside(conf, before, lists, s);
      }
      forall r
        ensures GrownAt(Get(conf, last.key), last.value, l1, r) == GrownAt(Get(conf, last.key), last.value, lists, r)
      {
        GrownAtFrame(Get(conf, last.key), last.value, lists, l1, r);
      }
      AppendsAddUp(conf, update, lists, l1, UpdateObjects(conf, update, true, lists).value.lists);
    } else {
      NothingAppended(lists, conf);
    }
  }

  lemma TidyGetOption(d: Objects, key: string)
    requires Tidy(d)
    ensures TidyOption(Get(d, key))
  {
    if Has(d, key) {
      TidyGet(d, key);
    }
  }

  lemma AppendsAddUp(conf: Objects, update: Objects, l0: Lists, l1: Lists, l2: Lists)
    requires update != [] && AppendedAll(l0, l1, conf, update[..|update| - 1])
    requires AppendedAt(l1, l2, Get(conf, update[|update| - 1].key), update[|update| - 1].value)
    requires var was, v := Get(conf, update[|update| - 1].key), update[|update| - 1].value;
             forall r :: GrownAt(was, v, l1, r) == GrownAt(was, v, l0, r)
    ensures AppendedAll(l0, l2, conf, update)
  {
    hide GrownAt, Get, ItemsOf;
    var was, v := Get(conf, update[|update| - 1].key), update[|update| - 1].value;
    forall r
      ensures ItemsOf(l2, r) == ItemsOf(l0, r) + Grown(conf, update, l0, r)
    {
      var first, last := Grown(conf, update[..|update| - 1], l0, r), GrownAt(was, v, l0, r);
      assert ItemsOf(l1, r) == ItemsOf(l0, r) + first;
      assert ItemsOf(l2, r) == ItemsOf(l1, r) + last;
      assert Grown(conf, update, l0, r) == first + last;
      hide Grown;
      assert ItemsOf(l0, r) + first + last == ItemsOf(l0, r) + (first + last);
    }
  }

  lemma NothingAppended(lists: Lists, conf: Objects)
    ensures AppendedAll(lists, lists, conf, [])
  {
  }

  lemma RefsSplit(d: Objects)
    requires d != []
    ensures RefsOf(d) == RefsOf(d[..|d| - 1]) + RefsOfNode(d[|d| - 1].value)
  {
  }

  lemma {:induction false} EntryAppends(key: string, was: Option<Node<Ref>>, v: Node<Ref>, lists: Lists)
    requires TidyOption(was) && TidyNode(v) && ApartFrom(RefsOfOption(was), RefsOfNode(v), lists)
    requires UpdateObject(key, was, v, true, lists).Ok?
    ensures AppendedAt(lists, UpdateObject(key, was, v, true, lists).value.lists, was, v)
    decreases v
  {
    hide Tidy, UpdateObjects, Grown, RefsOf;
    var after := UpdateObject(key, was, v, true, lists).value.lists;
    if v.Mapping? && (was.None? || was.value.Mapping?) {
      TidyEmpty();
      RefsBelow(was);
      MergeAppends(Below(was), v.entries, lists);
    } else {
      NothingGrows(lists);
      forall r
        ensures ItemsOf(after, r) == ItemsOf(lists, r) + GrownAt(was, v, lists, r)
      {
        assert ItemsOf(lists, r) + [] == ItemsOf(lists, r);
      }
    }
  }

  lemma NothingGrows(lists: Lists)
    ensures forall r :: Grown([], [], lists, r) == []
  {
  }

  // ---------------------------------------------------------------- extending lists: when sharing does harm

  /** A list object stands at two places, and the update has items for the first of them. */
  predicate GrowsTwice(conf: Objects, update: Objects, lists: Lists, p: seq<string>, q: seq<string>, r: Ref) {
    p != q && Stands(conf, update, p, r) && Stands(conf, update, q, r) && Supplied(update, p, lists) != []
  }

  ghost predicate SharedListGrows(conf: Objects, update: Objects, lists: Lists) {
    exists p, q, r :: GrowsTwice(conf, update, lists, p, q, r)
  }

  /** Paths through other keys do not see the last entry of the update. */
  lemma SkipLast(update: Objects, path: seq<string>, lists: Lists)
    requires Tidy(update) && update != [] && path != []
    ensures var before, key := update[..|update| - 1], update[|update| - 1].key;
      && (path[0] != key ==> (Stays(before, path) <==> Stays(update, path)))
      && (path[0] != key ==> Supplied(before, path, lists) == Supplied(update, path, lists))
      && (path[0] == key ==> Stays(before, path) && Supplied(before, path, lists) == [])
  {
    hide Tidy, TidyNode;
    var before, last := update[..|update| - 1], update[|update| - 1];
    TidySplit(update);
    GetSnoc(before, last, path[0]);
    HasIsGet(before, path[0]);
  }

  /** None of the places of the list gets items. */
  ghost predicate NoItemsFor(conf: Objects, update: Objects, lists: Lists, r: Ref) {
    forall q :: Stands(conf, update, q, r) ==> Supplied(update, q, lists) == []
  }

  lemma {:induction false} GrownNowhere(conf: Objects, update: Objects, lists: Lists, r: Ref)
    requires Tidy(update) && NoItemsFor(conf, update, lists, r)
    ensures Grown(conf, update, lists, r) == []
    decreases update, 1
  {
    hide Tidy, TidyNode, Stays, Supplied, Get;
    if update != [] {
      var before, last := update[..|update| - 1], update[|update| - 1];
      TidySplit(update);
      forall q | Stands(conf, before, q, r)
        ensures Supplied(before, q, lists) == []
      {
        SkipLast(update, q, lists);
        assert q[0] != last.key ==> Stands(conf, update, q, r);
      }
      GrownNowhere(conf, before, lists, r);
      NotGrownByLast(conf, update, lists, r);
    }
  }

  lemma {:induction false} NotGrownByLast(conf: Objects, update: Objects, lists: Lists, r: Ref)
    requires Tidy(update) && update != []
    requires forall q :: Stands(conf, update, q, r) && q[0] == update[|update| - 1].key ==>
             Supplied(update, q, lists) == []
    ensures GrownAt(Get(conf, update[|update| - 1].key), update[|update| - 1].value, lists, r) == []
    decreases update, 0
  {
    hide Tidy, TidyNode, Grown;
    var before, last := update[..|update| - 1], update[|update| - 1];
    var was := Get(conf, last.key);
    TidySplit(update);
    LastIsFound(update);
    if last.value.Mapping? {
      TidyBelow(last.value);
      if was.Some? && was.value.Mapping? {
        forall q | Stands(was.value.entries, last.value.entries, q, r)
          ensures Supplied(last.value.entries, q, lists) == []
        {
          StandsBelow(conf, update, last.key, q, r, lists);
        }
      } else {
        NoPlaces(last.value.entries, r);
      }
      GrownNowhere(Below(was), last.value.entries, lists, r);
    } else if was == Some(Node.List(r)) {
      assert Stands(conf, update, [last.key], r);
    }
  }

  lemma LastIsFound(update: Objects)
    requires Tidy(update) && update != []
    ensures Get(update, update[|update| - 1].key) == Some(update[|update| - 1].value)
  {
    FindUnique(update, |update| - 1);
  }

  lemma TidyBelow(v: Node<Ref>)
    requires TidyNode(v) && v.Mapping?
    ensures Tidy(v.entries)
  {
  }

  lemma NoPlaces(update: Objects, r: Ref)
    ensures forall q :: !Stands([], update, q, r)
  {
    forall q | Stands([], update, q, r)
      ensures false
    {
      NoKeys(q[0]);
    }
  }

  /** If a list gets items at one place at most, these are all that is appended to it. */
  lemma {:induction false} GrownOnce(conf: Objects, update: Objects, lists: Lists, p: seq<string>, r: Ref)
    requires Tidy(update) && Stands(conf, update, p, r)
    requires forall q :: q != p && Stands(conf, update, q, r) ==> Supplied(update, q, lists) == []
    ensures Grown(conf, update, lists, r) == Supplied(update, p, lists)
    decreases update
  {
    hide Tidy, TidyNode, Get;
    if update == [] {
      NoKeys(p[0]);
    } else {
      var before, last := update[..|update| - 1], update[|update| - 1];
      TidySplit(update);
      SkipLast(update, p, lists);
      forall q | q != p && Stands(conf, before, q, r)
        ensures Supplied(before, q, lists) == []
      {
        SkipLast(update, q, lists);
        assert q[0] != last.key ==> Stands(conf, update, q, r);
      }
      if p[0] == last.key {
        GrownNowhere(conf, before, lists, r);
        GrownOnceByLast(conf, update, lists, p, r);
      } else {
        GrownOnce(conf, before, lists, p, r);
        NotGrownByLast(conf, update, lists, r);
      }
    }
  }

  lemma {:induction false} GrownOnceByLast(conf: Objects, update: Objects, lists: Lists, p: seq<string>, r: Ref)
    requires Tidy(update) && update != [] && Stands(conf, update, p, r) && p[0] == update[|update| - 1].key
    requires forall q :: q != p && Stands(conf, update, q, r) ==> Supplied(update, q, lists) == []
    ensures GrownAt(Get(conf, p[0]), update[|update| - 1].value, lists, r) == Supplied(update, p, lists)
    decreases update, 0
  {
    hide Tidy, TidyNode, Grown;
    var last := update[|update| - 1];
    var was := Get(conf, last.key);
    TidySplit(update);
    LastIsFound(update);
    if |p| > 1 {
      TidyBelow(last.value);
      assert [last.key] + p[1..] == p;
      StandsBelow(conf, update, last.key, p[1..], r, lists);
      forall q | q != p[1..] && Stands(was.value.entries, last.value.entries, q, r)
        ensures Supplied(last.value.entries, q, lists) == []
      {
        StandsBelow(conf, update, last.key, q, r, lists);
        assert ([last.key] + q)[1..] == q;
      }
      GrownOnce(was.value.entries, last.value.entries, lists, p[1..], r);
    } else if last.value.Mapping? {
      NoRefs();
      GrownInside([], last.value.entries, lists, r);
    }
  }

  /** Whatever a place gets is part of what is appended. */
  lemma {:induction false} GrownAtLeast(conf: Objects, update: Objects, lists: Lists, p: seq<string>, r: Ref)
    requires Tidy(update) && Stands(conf, update, p, r)
    ensures |Supplied(update, p, lists)| <= |Grown(conf, update, lists, r)|
    decreases update, 1
  {
    hide Tidy, TidyNode, Get;
    if update == [] {
      NoKeys(p[0]);
    } else {
      TidySplit(update);
      SkipLast(update, p, lists);
      if p[0] == update[|update| - 1].key {
        GrownAtLeastByLast(conf, update, lists, p, r);
      } else {
        GrownAtLeast(conf, update[..|update| - 1], lists, p, r);
      }
    }
  }

  lemma {:induction false} GrownAtLeastByLast(conf: Objects, update: Objects, lists: Lists, p: seq<string>, r: Ref)
    requires Tidy(update) && update != [] && Stands(conf, update, p, r) && p[0] == update[|update| - 1].key
    ensures |Supplied(update, p, lists)| <= |GrownAt(Get(conf, p[0]), update[|update| - 1].value, lists, r)|
    decreases update, 0
  {
    hide Tidy, TidyNode, Grown;
    var last := update[|update| - 1];
    TidySplit(update);
    LastIsFound(update);
    if |p| > 1 {
      TidyBelow(last.value);
      assert [last.key] + p[1..] == p;
      StandsBelow(conf, update, last.key, p[1..], r, lists);
      GrownAtLeast(Get(conf, last.key).value.entries, last.value.entries, lists, p[1..], r);
    }
  }

  /** Two places of a list add up. */
  lemma {:induction false} GrownByBoth(conf: Objects, update: Objects, lists: Lists, p: seq<string>, q: seq<string>,
                                       r: Ref)
    requires Tidy(update) && Stands(conf, update, p, r) && Stands(conf, update, q, r) && p != q
    ensures |Supplied(update, p, lists)| + |Supplied(update, q, lists)| <= |Grown(conf, update, lists, r)|
    decreases update, 1
  {
    hide Tidy, TidyNode, Get;
    if update == [] {
      NoKeys(p[0]);
      NoKeys(q[0]);
    } else {
      var before, last := update[..|update| - 1], update[|update| - 1];
      TidySplit(update);
      SkipLast(update, p, lists);
      SkipLast(update, q, lists);
      if p[0] == last.key && q[0] == last.key {
        GrownByBothBelow(conf, update, lists, p, q, r);
      } else if p[0] == last.key {
        GrownAtLeastByLast(conf, update, lists, p, r);
        GrownAtLeast(conf, before, lists, q, r);
      } else if q[0] == last.key {
        GrownAtLeastByLast(conf, update, lists, q, r);
        GrownAtLeast(conf, before, lists, p, r);
      } else {
        GrownByBoth(conf, before, lists, p, q, r);
      }
    }
  }

  lemma {:induction false} GrownByBothBelow(conf: Objects, update: Objects, lists: Lists, p: seq<string>,
                                            q: seq<string>, r: Ref)
    requires Tidy(update) && update != [] && Stands(conf, update, p, r) && Stands(conf, update, q, r) && p != q
    requires p[0] == update[|update| - 1].key && q[0] == p[0]
    ensures |Supplied(update, p, lists)| + |Supplied(update, q, lists)| <=
            |GrownAt(Get(conf, p[0]), update[|update| - 1].value, lists, r)|
    decreases update, 0
  {
    hide Tidy, TidyNode, Grown;
    var last := update[|update| - 1];
    TidySplit(update);
    LastIsFound(update);
    assert |p| > 1 && |q| > 1;
    TidyBelow(last.value);
    assert [last.key] + p[1..] == p && [last.key] + q[1..] == q;
    StandsBelow(conf, update, last.key, p[1..], r, lists);
    StandsBelow(conf, update, last.key, q[1..], r, lists);
    GrownByBoth(Get(conf, last.key).value.entries, last.value.entries, lists, p[1..], q[1..], r);
  }

  lemma {:induction false} FitsUnlessShared(conf: Objects, update: Objects, lists: Lists, after: Lists)
    requires Tidy(update) && AppendedAll(lists, after, conf, update)
    ensures Fits(conf, update, lists, after) <==> !SharedListGrows(conf, update, lists)
  {
    hide Tidy, Stands, Supplied, Grown, ItemsOf;
    if SharedListGrows(conf, update, lists) {
      var p, q, r :| GrowsTwice(conf, update, lists, p, q, r);
      GrownByBoth(conf, update, lists, p, q, r);
      assert ItemsOf(after, r) == ItemsOf(lists, r) + Grown(conf, update, lists, r);
      assert ItemsOf(after, r) != ItemsOf(lists, r) + Supplied(update, q, lists);
    } else {
      forall p: seq<string>, r: Ref | Stands(conf, update, p, r)
        ensures ItemsOf(after, r) == ItemsOf(lists, r) + Supplied(update, p, lists)
      {
        assert ItemsOf(after, r) == ItemsOf(lists, r) + Grown(conf, update, lists, r);
        forall q | q != p && Stands(conf, update, q, r)
          ensures Supplied(update, q, lists) == []
        {
          assert !GrowsTwice(conf, update, lists, q, p, r);
        }
        GrownOnce(conf, update, lists, p, r);
      }
    }
  }

  /**
   Extending lists in place fails as merging values fails; and it gives the merged values exactly when no list object
   that keeps standing at two places gets items at one of them.
   */
  lemma {:induction false} InPlaceMergesValuesExactly(conf: Objects, update: Objects, lists: Lists)
    requires Tidy(conf) && Tidy(update) && ApartFrom(RefsOf(conf), RefsOf(update), lists)
    ensures SameOutcome(UpdateObjects(conf, update, true, lists), Update(View(conf, lists), View(update, lists), true))
    ensures var m := UpdateObjects(conf, update, true, lists); m.Ok? ==>
              (View(m.value.value, m.value.lists) == Update(View(conf, lists), View(update, lists), true).value
               <==> !SharedListGrows(conf, update, lists))
  {
    hide Tidy, View, Update, UpdateObjects, Fits, SharedListGrows, Grown, RefsOf;
    OutcomeIsShared(conf, update, lists, lists);
    var m := UpdateObjects(conf, update, true, lists);
    if m.Ok? {
      MergeAppends(conf, update, lists);
      forall r | r in RefsOf(update)
        ensures ItemsOf(m.value.lists, r) == ItemsOf(lists, r)
      {
        GrownInside(conf, update, lists, r);
        assert ItemsOf(lists, r) + [] == ItemsOf(lists, r);
      }
      ViewsAgreeExactly(conf, update, lists, m.value.lists);
      FitsUnlessShared(conf, update, lists, m.value.lists);
    }
  }

  // ---------------------------------------------------------------- configurations that share nothing

  /** No list object stands at two places. */
  ghost predicate Unshared(d: Objects) {
    forall p, q, r :: Stands(d, [], p, r) && Stands(d, [], q, r) ==> p == q
  }

  lemma StandsAnyway(conf: Objects, update: Objects, p: seq<string>, r: Ref)
    requires Stands(conf, update, p, r)
    ensures Stands(conf, [], p, r)
  {
    NoKeys(p[0]);
  }

  lemma {:induction false} UnsharedIsHarmless(conf: Objects, update: Objects, lists: Lists)
    requires Unshared(conf)
    ensures !SharedListGrows(conf, update, lists)
  {
    hide Stands, Supplied;
    forall p, q, r
      ensures !GrowsTwice(conf, update, lists, p, q, r)
    {
      if Stands(conf, update, p, r) && Stands(conf, update, q, r) {
        StandsAnyway(conf, update, p, r);
        StandsAnyway(conf, update, q, r);
      }
    }
  }

  lemma {:induction false} PlaceIsRef(d: Objects, p: seq<string>, r: Ref)
    requires p != [] && At(d, p) == Some(Node.List(r))
    ensures r in RefsOf(d)
    decreases |p|
  {
    hide RefsOf, Get;
    RefsOfGetOption(d, p[0]);
    var v := Get(d, p[0]);
    if |p| > 1 {
      PlaceIsRef(v.value.entries, p[1..], r);
      RefsBelow(v);
    }
  }

  /** A list of the result stands where the configuration had it and has it still, or comes from the update. */
  lemma {:induction false} PlaceOrigin(conf: Objects, update: Objects, lists: Lists, p: seq<string>, r: Ref)
    requires Tidy(conf) && Tidy(update) && UpdateObjects(conf, update, true, lists).Ok?
    requires p != [] && At(UpdateObjects(conf, update, true, lists).value.value, p) == Some(Node.List(r))
    ensures if At(conf, p).Some? && At(conf, p).value.List? then Stands(conf, update, p, r)
            else At(update, p) == Some(Node.List(r))
    decreases |p|
  {
    hide Tidy, TidyNode, UpdateObjects, Get, Has, MergedNode;
    MergedKeyByKey(conf, update, lists, p[0]);
    HasIsGet(update, p[0]);
    var was, v := Get(conf, p[0]), Get(update, p[0]);
    TidyGetOption(conf, p[0]);
    TidyGetOption(update, p[0]);
    if v.Some? {
      if v.value.Mapping? && (was.None? || was.value.Mapping?) {
        MergedMapping(p[0], was, v.value, lists);
        TidyEmpty();
        TidyOptionBelow(was);
        TidyOptionBelow(v);
        if |p| > 1 {
          PlaceOrigin(Below(was), v.value.entries, lists, p[1..], r);
          NoKeys(p[1]);
        }
      } else {
        MergedLeaf(p[0], was, v.value);
      }
    }
  }

  lemma TidyOptionBelow(v: Option<Node<Ref>>)
    requires TidyOption(v)
    ensures Tidy(Below(v))
  {
    TidyEmpty();
  }

  lemma MergedLeaf(key: string, was: Option<Node<Ref>>, v: Node<Ref>)
    requires MergedNode(key, was, v).Some? && !(v.Mapping? && (was.None? || was.value.Mapping?))
    ensures MergedNode(key, was, v) == if was.Some? && (was.value.List? || v.Mapping?) then was else Some(v)
  {
  }

  /** The same, with the set of lists it belongs to. */
  lemma {:induction false} OriginOf(conf: Objects, update: Objects, lists: Lists, p: seq<string>, r: Ref)
    requires Tidy(conf) && Tidy(update) && UpdateObjects(conf, update, true, lists).Ok?
    requires Stands(UpdateObjects(conf, update, true, lists).value.value, [], p, r)
    ensures (Stands(conf, [], p, r) && r in RefsOf(conf)) || (Stands(update, [], p, r) && r in RefsOf(update))
  {
    hide Tidy, UpdateObjects, RefsOf, At;
    PlaceOrigin(conf, update, lists, p, r);
    NoKeys(p[0]);
    if At(conf, p) == Some(Node.List(r)) {
      PlaceIsRef(conf, p, r);
    } else {
      PlaceIsRef(update, p, r);
    }
  }

  lemma {:induction false} UnsharedKept(conf: Objects, update: Objects, lists: Lists)
    requires Tidy(conf) && Tidy(update) && UpdateObjects(conf, update, true, lists).Ok?
    requires Unshared(conf) && Unshared(update) && RefsOf(conf) !! RefsOf(update)
    ensures Unshared(UpdateObjects(conf, update, true, lists).value.value)
  {
    hide Tidy, UpdateObjects, RefsOf, Stands;
    var d := UpdateObjects(conf, update, true, lists).value.value;
    forall p, q, r | Stands(d, [], p, r) && Stands(d, [], q, r)
      ensures p == q
    {
      OriginOf(conf, update, lists, p, r);
      OriginOf(conf, update, lists, q, r);
    }
  }
}
