/**
 What a merge does whatever lists hold: a configuration with its lists emptied says which merges fail and where lists
 stand, and two configurations that agree so far are equal when they agree list by list.
*/
module YamlShapes {
  import opened Common
  import opened OrderedDict
  import opened YamlTree
  import opened YamlObjects
  import opened YamlSharing

  function BareNode(v: Tree): Tree
    decreases v
  {
    match v
    case Mapping(entries) => Mapping(Bare(entries))
    case List(_) => List([])
    case Scalar(text) => Scalar(text)
  }

  /** The configuration with all its lists emptied. */
  function Bare(d: Config): Config
    decreases d
  {
    if d == [] then [] else Bare(d[..|d| - 1]) + [Item(d[|d| - 1].key, BareNode(d[|d| - 1].value))]
  }

  function BareOption(v: Option<Tree>): Option<Tree> {
    if v.Some? then Some(BareNode(v.value)) else None
  }

  lemma {:induction false} BareAt(d: Config)
    ensures |Bare(d)| == |d|
    ensures forall i :: 0 <= i < |d| ==> Bare(d)[i] == Item(d[i].key, BareNode(d[i].value))
  {
    if d != [] {
      BareAt(d[..|d| - 1]);
    }
  }

  lemma {:induction false} FindInBare(d: Config, key: string)
    ensures Find(Bare(d), key) == Find(d, key)
    ensures Get(Bare(d), key) == BareOption(Get(d, key))
  {
    hide BareNode;
    if d != [] {
      var before, last := d[..|d| - 1], d[|d| - 1];
      assert Bare(d) == Bare(before) + [Item(last.key, BareNode(last.value))];
      FindInBare(before, key);
      BareAt(before);
      assert before + [last] == d;
      hide Find, Get, Bare;
      FindSnoc(Bare(before), Item(last.key, BareNode(last.value)), key);
      GetSnoc(Bare(before), Item(last.key, BareNode(last.value)), key);
      FindSnoc(before, last, key);
      GetSnoc(before, last, key);
    }
  }

  lemma PutInBare(d: Config, key: string, v: Tree)
    ensures Bare(Put(d, key, v)) == Put(Bare(d), key, BareNode(v))
  {
    hide BareNode;
    FindFinds(d, key);
    FindInBare(d, key);
    BareAt(d);
    BareAt(Put(d, key, v));
  }

  lemma BareBefore(d: Config)
    requires d != []
    ensures |Bare(d)| == |d| && Bare(d)[..|d| - 1] == Bare(d[..|d| - 1])
    ensures Bare(d)[|d| - 1] == Item(d[|d| - 1].key, BareNode(d[|d| - 1].value))
  {
    BareAt(d);
  }

  lemma BareEmpty()
    ensures Bare([]) == []
  {
  }

  /** Emptying lists before a merge or after it comes to the same, and so does failing. */
  ghost predicate MergesBare(conf: Config, update: Config) {
    match Update(conf, update, true)
    case Err(e) => Update(Bare(conf), Bare(update), true) == Err(e)
    case Ok(r) => Update(Bare(conf), Bare(update), true) == Ok(Bare(r))
  }

  ghost predicate MergesBareEntry(key: string, was: Option<Tree>, v: Tree) {
    match UpdateEntry(key, was, v, true)
    case Err(e) => UpdateEntry(key, BareOption(was), BareNode(v), true) == Err(e)
    case Ok(r) => UpdateEntry(key, BareOption(was), BareNode(v), true) == Ok(BareNode(r))
  }

  lemma {:induction false} BareMerge(conf: Config, update: Config)
    ensures MergesBare(conf, update)
    decreases update, 1
  {
    hide BareNode, UpdateEntry, Put, Get, Has, Find;
    if update != [] {
      var before, last := update[..|update| - 1], update[|update| - 1];
      BareMerge(conf, before);
      BareBefore(update);
      var c := Update(conf, before, true);
      if c.Ok? {
        FindInBare(c.value, last.key);
        BareEntry(last.key, Get(c.value, last.key), last.value);
        var v := UpdateEntry(last.key, Get(c.value, last.key), last.value, true);
        if v.Ok? {
          PutInBare(c.value, last.key, v.value);
        }
      }
    } else {
      BareEmpty();
    }
  }

  lemma {:induction false} BareEntry(key: string, was: Option<Tree>, v: Tree)
    ensures MergesBareEntry(key, was, v)
    decreases v
  {
    hide Update, Bare;
    BareEmpty();
    var none: seq<string> := [];
    assert none + none == none;
    if v.Mapping? {
      BareAt(v.entries);
      if was.None? || was.value.Mapping? {
        BareMerge(EntriesOf(was), v.entries);
      }
    }
  }

  lemma {:induction false} BareView(d: Objects, lists: Lists)
    ensures Bare(View(d, lists)) == View(d, [])
    decreases d, 1
  {
    hide BareNode, ViewNode;
    if d != [] {
      var before, last := d[..|d| - 1], d[|d| - 1];
      BareView(before, lists);
      BareNodeView(last.value, lists);
      ViewBefore(d, lists);
      BareBefore(View(d, lists));
    }
  }

  lemma {:induction false} BareNodeView(v: Node<Ref>, lists: Lists)
    ensures BareNode(ViewNode(v, lists)) == ViewNode(v, [])
    decreases v, 0
  {
    if v.Mapping? {
      BareView(v.entries, lists);
    }
  }

  // ---------------------------------------------------------------- objects and values of one shape

  /** The objects and the values agree on everything but what lists hold. */
  ghost predicate SameShape(d: Objects, c: Config) {
    Bare(c) == View(d, [])
  }

  lemma {:induction false} ShapeMerges(conf: Objects, update: Objects, lists: Lists, c: Config)
    requires Tidy(conf) && Tidy(update) && SameShape(conf, c)
    ensures SameOutcome(UpdateObjects(conf, update, true, lists), Update(c, View(update, lists), true))
    ensures UpdateObjects(conf, update, true, lists).Ok? ==>
            SameShape(UpdateObjects(conf, update, true, lists).value.value, Update(c, View(update, lists), true).value)
  {
    hide Tidy, View, Bare, Update, UpdateObjects, Fits;
    var none: Lists := [];
    BareView(update, lists);
    BareMerge(c, View(update, lists));
    OutcomeIsShared(conf, update, lists, none);
    if UpdateObjects(conf, update, true, lists).Ok? {
      ShapeIsShared(conf, update, lists, none);
      EmptyListsFit(conf, update);
      ViewsAgreeExactly(conf, update, none, none);
    }
  }

  lemma EmptyListsFit(conf: Objects, update: Objects)
    ensures Fits(conf, update, [], []) && Unmoved(update, [], [])
  {
  }

  /** Lists stand in both at the same paths. */
  lemma {:induction false} ShapeAt(d: Objects, c: Config, path: seq<string>)
    requires SameShape(d, c) && path != []
    ensures BareOption(At(c, path)) == ViewOption(At(d, path), [])
    decreases |path|
  {
    hide Bare, View, Get;
    FindInBare(c, path[0]);
    FindInView(d, [], path[0]);
    var v, x := Get(d, path[0]), Get(c, path[0]);
    if |path| > 1 && v.Some? && v.value.Mapping? {
      ShapeAt(v.value.entries, x.value.entries, path[1..]);
    }
  }

  lemma {:induction false} ListAtView(d: Objects, lists: Lists, path: seq<string>)
    requires path != []
    ensures ListAt(View(d, lists), path) == Supplied(d, path, lists)
    ensures At(View(d, lists), path) == ViewOption(At(d, path), lists)
    decreases |path|
  {
    hide View, Get;
    FindInView(d, lists, path[0]);
    var v := Get(d, path[0]);
    if |path| > 1 && v.Some? && v.value.Mapping? {
      ListAtView(v.value.entries, lists, path[1..]);
    }
  }

  /** Every list object holds what the values have at each place of it. */
  ghost predicate ListsAgree(d: Objects, lists: Lists, c: Config) {
    forall path: seq<string>, r: Ref :: path != [] && Stands(d, [], path, r) ==> ListAt(c, path) == ItemsOf(lists, r)
  }

  ghost predicate NodesAgree(v: Node<Ref>, lists: Lists, x: Tree) {
    match v
    case Mapping(entries) => x.Mapping? && ListsAgree(entries, lists, x.entries)
    case List(r) => x.List? && x.items == ItemsOf(lists, r)
    case Scalar(_) => true
  }

  /** Objects of the same shape stand for the values exactly when they agree list by list. */
  lemma {:induction false} ViewsEqualExactly(d: Objects, lists: Lists, c: Config)
    requires Tidy(d) && SameShape(d, c)
    ensures View(d, lists) == c <==> ListsAgree(d, lists, c)
    decreases d, 1
  {
    hide Tidy, Bare, View, Stands, ListAt;
    if View(d, lists) == c {
      forall path: seq<string>, r: Ref | path != [] && Stands(d, [], path, r)
        ensures ListAt(c, path) == ItemsOf(lists, r)
      {
        StandsAt(d, path, r);
        ListAtView(d, lists, path);
      }
    }
    if ListsAgree(d, lists, c) {
      ListsAgreeSuffices(d, lists, c);
    }
  }

  lemma StandsAt(d: Objects, path: seq<string>, r: Ref)
    ensures Stands(d, [], path, r) <==> path != [] && At(d, path) == Some(Node.List(r))
  {
    if path != [] {
      NoKeys(path[0]);
    }
  }

  lemma {:induction false} ListsAgreeSuffices(d: Objects, lists: Lists, c: Config)
    requires Tidy(d) && SameShape(d, c) && ListsAgree(d, lists, c)
    ensures View(d, lists) == c
    decreases d, 1
  {
    hide Tidy, TidyNode, View, Bare, ViewNode, BareNode, ListsAgree, NodesAgree;
    BareAt(c);
    ViewAt(d, []);
    ViewAt(d, lists);
    forall i | 0 <= i < |d|
      ensures ViewNode(d[i].value, lists) == c[i].value
    {
      TidyAt(d, i);
      AgreesBelow(d, lists, c, i);
      NodesAgreeSuffices(d[i].value, lists, c[i].value);
    }
  }

  lemma {:induction false} NodesAgreeSuffices(v: Node<Ref>, lists: Lists, x: Tree)
    requires TidyNode(v) && BareNode(x) == ViewNode(v, []) && NodesAgree(v, lists, x)
    ensures ViewNode(v, lists) == x
    decreases v, 0
  {
    hide Tidy, View, Bare, ListsAgree;
    if v.Mapping? {
      ListsAgreeSuffices(v.entries, lists, x.entries);
    }
  }

  lemma TidyAt(d: Objects, i: nat)
    requires Tidy(d) && i < |d|
    ensures TidyNode(d[i].value)
  {
  }

  lemma {:induction false} AgreesBelow(d: Objects, lists: Lists, c: Config, i: nat)
    requires Tidy(d) && SameShape(d, c) && ListsAgree(d, lists, c) && i < |d| && |c| == |d|
    ensures NodesAgree(d[i].value, lists, c[i].value)
  {
    hide View, Bare, Get, Stands;
    BareAt(c);
    ViewAt(d, []);
    TidyIsDistinct(d);
    assert Distinct(c);
    FindUnique(d, i);
    FindUnique(c, i);
    var key, v, x := d[i].key, d[i].value, c[i].value;
    GetAt(d, i);
    GetAt(c, i);
    if v.List? {
      StandsAt(d, [key], v.items);
      assert At(d, [key]) == Some(v) && At(c, [key]) == Some(x);
    } else if v.Mapping? {
      forall path: seq<string>, r: Ref | path != [] && Stands(v.entries, [], path, r)
        ensures ListAt(x.entries, path) == ItemsOf(lists, r)
      {
        StandsAt(v.entries, path, r);
        assert ([key] + path)[1..] == path;
        StandsAt(d, [key] + path, r);
        assert ListAt(c, [key] + path) == ListAt(x.entries, path);
      }
    }
  }

  lemma GetAt<V>(d: Dict<V>, i: nat)
    requires Distinct(d) && i < |d|
    ensures Get(d, d[i].key) == Some(d[i].value)
  {
    FindUnique(d, i);
  }

  // ---------------------------------------------------------------- a merge at one list

  /** Where the result has a list, the values have added the update's items to their own, or taken its list over. */
  lemma {:induction false} ListAfter(conf: Config, update: Config, path: seq<string>)
    requires WellFormed(conf) && WellFormed(update) && path != [] && Update(conf, update, true).Ok?
    requires At(Update(conf, update, true).value, path).Some? && At(Update(conf, update, true).value, path).value.List?
    ensures ListAt(Update(conf, update, true).value, path) == ListAt(conf, path) + ListAt(update, path)
  {
    hide WellFormed, Update, At;
    EveryPath(conf, update, true, path);
    if At(update, path).Some? {
      TouchedWhereSupplied(update, path);
    }
  }
}
