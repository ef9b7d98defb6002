/**
 Configurations as the YAML merge handles them: a list of one source becomes part of the output as the object it is,
 and extending it changes that object; mappings of the output are always its own.
*/
module YamlObjects {
  import opened Common
  import opened OrderedDict
  import opened YamlTree

  type Ref = nat

  /** A configuration whose lists are references to list objects. */
  type Objects = Dict<Node<Ref>>

  /** What every list object holds; a new object gets the next reference. */
  type Lists = seq<seq<string>>

  function ItemsOf(lists: Lists, r: Ref): seq<string> {
    if r < |lists| then lists[r] else []
  }

  function Extended(lists: Lists, r: Ref, items: seq<string>): Lists {
    if r < |lists| then lists[r := lists[r] + items] else lists
  }

  // ---------------------------------------------------------------- what objects stand for

  function ViewNode(v: Node<Ref>, lists: Lists): Tree
    decreases v
  {
    match v
    case Mapping(entries) => Mapping(View(entries, lists))
    case List(r) => List(ItemsOf(lists, r))
    case Scalar(text) => Scalar(text)
  }

  function View(d: Objects, lists: Lists): Config
    decreases d
  {
    if d == [] then []
    else View(d[..|d| - 1], lists) + [Item(d[|d| - 1].key, ViewNode(d[|d| - 1].value, lists))]
  }

  function ViewOption(v: Option<Node<Ref>>, lists: Lists): Option<Tree> {
    if v.Some? then Some(ViewNode(v.value, lists)) else None
  }

  lemma {:induction false} ViewAt(d: Objects, lists: Lists)
    ensures |View(d, lists)| == |d|
    ensures forall i :: 0 <= i < |d| ==> View(d, lists)[i] == Item(d[i].key, ViewNode(d[i].value, lists))
  {
    if d != [] {
      ViewAt(d[..|d| - 1], lists);
    }
  }

  lemma {:induction false} FindInView(d: Objects, lists: Lists, key: string)
    ensures Find(View(d, lists), key) == Find(d, key)
    ensures Get(View(d, lists), key) == ViewOption(Get(d, key), lists)
  {
    hide ViewNode;
    if d != [] {
      var before, last := d[..|d| - 1], d[|d| - 1];
      assert View(d, lists) == View(before, lists) + [Item(last.key, ViewNode(last.value, lists))];
      FindInView(before, lists, key);
      ViewAt(before, lists);
      assert before + [last] == d;
      hide Find, Get, View;
      FindSnoc(View(before, lists), Item(last.key, ViewNode(last.value, lists)), key);
      GetSnoc(View(before, lists), Item(last.key, ViewNode(last.value, lists)), key);
      FindSnoc(before, last, key);
      GetSnoc(before, last, key);
    }
  }

  lemma PutInView(d: Objects, lists: Lists, key: string, v: Node<Ref>)
    ensures View(Put(d, key, v), lists) == Put(View(d, lists), key, ViewNode(v, lists))
  {
    hide ViewNode;
    FindFinds(d, key);
    FindInView(d, lists, key);
    ViewAt(d, lists);
    ViewAt(Put(d, key, v), lists);
  }

  // ---------------------------------------------------------------- merging objects

  /** The merged configuration and what the lists hold afterwards. */
  datatype Merged<T> = Merged(value: T, lists: Lists)

  function UpdateObject(key: string, was: Option<Node<Ref>>, v: Node<Ref>, extend: bool,
                        lists: Lists): Result<Merged<Node<Ref>>, MergeError>
    decreases v
  {
    match v
    case Mapping(u) =>
      if was.None? || was.value.Mapping? then
        var c := UpdateObjects(if was.None? then [] else was.value.entries, u, extend, lists);
        if c.Ok? then Ok(Merged(Mapping(c.value.value), c.value.lists)) else Err(c.error)
      else if u == [] then Ok(Merged(was.value, lists))
      else Err(NotAMapping(key))
    case List(r) =>
      if extend && was.Some? && was.value.List? then
        Ok(Merged(was.value, Extended(lists, was.value.items, ItemsOf(lists, r))))
      else Ok(Merged(v, lists))
    case Scalar(_) =>
      if extend && was.Some? && was.value.List? then Err(NotAList(key)) else Ok(Merged(v, lists))
  }

  function UpdateObjects(conf: Objects, update: Objects, extend: bool,
                         lists: Lists): Result<Merged<Objects>, MergeError>
    decreases update
  {
    if update == [] then Ok(Merged(conf, lists))
    else
      var c := UpdateObjects(conf, update[..|update| - 1], extend, lists);
      var last := update[|update| - 1];
      if c.Err? then c
      else
        var v := UpdateObject(last.key, Get(c.value.value, last.key), last.value, extend, c.value.lists);
        if v.Ok? then Ok(Merged(Put(c.value.value, last.key, v.value.value), v.value.lists)) else Err(v.error)
  }

  // ---------------------------------------------------------------- references

  function RefsOfNode(v: Node<Ref>): set<Ref>
    decreases v
  {
    match v
    case Mapping(entries) => RefsOf(entries)
    case List(r) => {r}
    case Scalar(_) => {}
  }

  /** The list objects that stand somewhere in a configuration. */
  function RefsOf(d: Objects): set<Ref>
    decreases d
  {
    if d == [] then {} else RefsOf(d[..|d| - 1]) + RefsOfNode(d[|d| - 1].value)
  }

  lemma {:induction false} RefsOfEntry(d: Objects, i: nat)
    requires i < |d|
    ensures RefsOfNode(d[i].value) <= RefsOf(d)
  {
    if i < |d| - 1 {
      RefsOfEntry(d[..|d| - 1], i);
    }
  }

  lemma RefsOfGet(d: Objects, key: string)
    requires Has(d, key)
    ensures RefsOfNode(Get(d, key).value) <= RefsOf(d)
  {
    FindFinds(d, key);
    RefsOfEntry(d, Find(d, key).value);
  }

  lemma {:induction false} RefsOfBound(d: Objects, s: set<Ref>)
    requires forall i :: 0 <= i < |d| ==> RefsOfNode(d[i].value) <= s
    ensures RefsOf(d) <= s
  {
    if d != [] {
      RefsOfBound(d[..|d| - 1], s);
    }
  }

  lemma RefsOfPut(d: Objects, key: string, v: Node<Ref>)
    ensures RefsOf(Put(d, key, v)) <= RefsOf(d) + RefsOfNode(v)
  {
    FindFinds(d, key);
    var d' := Put(d, key, v);
    forall i | 0 <= i < |d'|
      ensures RefsOfNode(d'[i].value) <= RefsOf(d) + RefsOfNode(v)
    {
      if i < |d| && d'[i] == d[i] {
        RefsOfEntry(d, i);
      }
    }
    RefsOfBound(d', RefsOf(d) + RefsOfNode(v));
  }

  /** No mapping anywhere repeats a key. */
  ghost predicate Tidy(d: Objects)
    decreases d
  {
    Distinct(d) && forall i :: 0 <= i < |d| ==> TidyNode(d[i].value)
  }

  ghost predicate TidyNode(v: Node<Ref>)
    decreases v
  {
    v.Mapping? ==> Tidy(v.entries)
  }

  lemma {:induction false} TidyView(d: Objects, lists: Lists)
    requires Tidy(d)
    ensures WellFormed(View(d, lists))
    decreases d, 1
  {
    ViewAt(d, lists);
    forall i | 0 <= i < |d|
      ensures WellFormedNode(ViewNode(d[i].value, lists))
    {
      TidyNodeView(d[i].value, lists);
    }
  }

  lemma {:induction false} TidyNodeView(v: Node<Ref>, lists: Lists)
    requires TidyNode(v)
    ensures WellFormedNode(ViewNode(v, lists))
    decreases v, 0
  {
    if v.Mapping? {
      TidyView(v.entries, lists);
    }
  }

  lemma TidyGet(d: Objects, key: string)
    requires Tidy(d) && Has(d, key)
    ensures TidyNode(Get(d, key).value)
  {
    FindFinds(d, key);
  }

  lemma TidyPut(d: Objects, key: string, v: Node<Ref>)
    requires Tidy(d) && TidyNode(v)
    ensures Tidy(Put(d, key, v))
  {
    PutKeepsDistinct(d, key, v);
    FindFinds(d, key);
  }

  lemma TidySplit(d: Objects)
    requires Tidy(d) && d != []
    ensures var before, last := d[..|d| - 1], d[|d| - 1];
      Tidy(before) && TidyNode(last.value) && !Has(before, last.key) && before + [last] == d
  {
    FindFinds(d[..|d| - 1], d[|d| - 1].key);
  }

  lemma TidyEmpty()
    ensures Tidy([])
  {
  }

  lemma TidyIsDistinct(d: Objects)
    requires Tidy(d)
    ensures Distinct(d)
  {
  }

  /** The entries below a node that is a mapping, and none otherwise. */
  function Below(v: Option<Node<Ref>>): Objects {
    if v.Some? && v.value.Mapping? then v.value.entries else []
  }

  // ---------------------------------------------------------------- what merging objects keeps

  ghost predicate TidyOption(v: Option<Node<Ref>>) {
    v.Some? ==> TidyNode(v.value)
  }

  function RefsOfOption(v: Option<Node<Ref>>): set<Ref> {
    if v.Some? then RefsOfNode(v.value) else {}
  }

  /** Merging keeps keys apart, brings in no list from elsewhere and makes none. */
  lemma {:induction false} MergeKeeps(conf: Objects, update: Objects, extend: bool, lists: Lists)
    requires Tidy(conf) && Tidy(update) && UpdateObjects(conf, update, extend, lists).Ok?
    ensures var m := UpdateObjects(conf, update, extend, lists).value;
      Tidy(m.value) && RefsOf(m.value) <= RefsOf(conf) + RefsOf(update) && |m.lists| == |lists|
    decreases update, 1
  {
    hide Tidy, TidyNode, Put, Get, Has, Find, UpdateObject, RefsOfNode;
    if update != [] {
      var before, last := update[..|update| - 1], update[|update| - 1];
      TidySplit(update);
      MergeKeeps(conf, before, extend, lists);
      var c := UpdateObjects(conf, before, extend, lists).value;
      HasIsGet(c.value, last.key);
      if Has(c.value, last.key) {
        TidyGet(c.value, last.key);
        RefsOfGet(c.value, last.key);
      }
      EntryKeeps(last.key, Get(c.value, last.key), last.value, extend, c.lists);
      var v := UpdateObject(last.key, Get(c.value, last.key), last.value, extend, c.lists).value.value;
      TidyPut(c.value, last.key, v);
      RefsOfPut(c.value, last.key, v);
    }
  }

  lemma {:induction false} EntryKeeps(key: string, was: Option<Node<Ref>>, v: Node<Ref>, extend: bool, lists: Lists)
    requires TidyOption(was) && TidyNode(v) && UpdateObject(key, was, v, extend, lists).Ok?
    ensures var m := UpdateObject(key, was, v, extend, lists).value;
      TidyNode(m.value) && RefsOfNode(m.value) <= RefsOfOption(was) + RefsOfNode(v) && |m.lists| == |lists|
    decreases v
  {
    hide Tidy, RefsOf, UpdateObjects;
    if v.Mapping? && (was.None? || was.value.Mapping?) {
      TidyEmpty();
      NoRefs();
      MergeKeeps(Below(was), v.entries, extend, lists);
    }
  }

  lemma NoRefs()
    ensures RefsOf([]) == {}
  {
  }

  /** Keys that the update does not have keep their nodes. */
  lemma {:induction false} OtherKeysStay(conf: Objects, update: Objects, extend: bool, lists: Lists, key: string)
    requires Tidy(conf) && Tidy(update) && UpdateObjects(conf, update, extend, lists).Ok? && !Has(update, key)
    ensures Get(UpdateObjects(conf, update, extend, lists).value.value, key) == Get(conf, key)
  {
    hide Tidy, TidyNode, UpdateObject;
    if update != [] {
      var before, last := update[..|update| - 1], update[|update| - 1];
      TidySplit(update);
      FindSnoc(before, last, key);
      OtherKeysStay(conf, before, extend, lists, key);
      MergeKeeps(conf, before, extend, lists);
      var c := UpdateObjects(conf, before, extend, lists).value;
      TidyIsDistinct(c.value);
      var v := UpdateObject(last.key, Get(c.value, last.key), last.value, extend, c.lists).value.value;
      GetPut(c.value, last.key, v, key);
    }
  }

  // ---------------------------------------------------------------- without extending lists

  /** What merging objects comes to when no list is extended: values are merged, and no object changes. */
  ghost predicate MergesValues(conf: Objects, update: Objects, lists: Lists) {
    match UpdateObjects(conf, update, false, lists)
    case Err(e) => Update(View(conf, lists), View(update, lists), false) == Err(e)
    case Ok(m) => m.lists == lists && Update(View(conf, lists), View(update, lists), false) == Ok(View(m.value, lists))
  }

  ghost predicate MergesEntry(key: string, was: Option<Node<Ref>>, v: Node<Ref>, lists: Lists) {
    match UpdateObject(key, was, v, false, lists)
    case Err(e) => UpdateEntry(key, ViewOption(was, lists), ViewNode(v, lists), false) == Err(e)
    case Ok(m) =>
      && m.lists == lists
      && UpdateEntry(key, ViewOption(was, lists), ViewNode(v, lists), false) == Ok(ViewNode(m.value, lists))
  }

  /** Without extending lists, it makes no difference which places share a list. */
  lemma {:induction false} SharingIsHarmlessByDefault(conf: Objects, update: Objects, lists: Lists)
    ensures MergesValues(conf, update, lists)
    decreases update, 1
  {
    hide ViewNode, UpdateObject, UpdateEntry, Put, Get, Has, Find;
    if update != [] {
      var before, last := update[..|update| - 1], update[|update| - 1];
      SharingIsHarmlessByDefault(conf, before, lists);
      ViewBefore(update, lists);
      var c := UpdateObjects(conf, before, false, lists);
      if c.Ok? {
        FindInView(c.value.value, lists, last.key);
        EntryHarmlessByDefault(last.key, Get(c.value.value, last.key), last.value, lists);
        var v := UpdateObject(last.key, Get(c.value.value, last.key), last.value, false, lists);
        if v.Ok? {
          PutInView(c.value.value, lists, last.key, v.value.value);
        }
      }
    }
  }

  lemma {:induction false} EntryHarmlessByDefault(key: string, was: Option<Node<Ref>>, v: Node<Ref>, lists: Lists)
    ensures MergesEntry(key, was, v, lists)
    decreases v
  {
    hide UpdateObjects, Update, View;
    ViewEmpty(lists);
    if v.Mapping? {
      ViewAt(v.entries, lists);
      if was.None? || was.value.Mapping? {
        SharingIsHarmlessByDefault(Below(was), v.entries, lists);
      }
    }
  }

  lemma ViewEmpty(lists: Lists)
    ensures View([], lists) == []
  {
  }

  lemma ViewBefore(d: Objects, lists: Lists)
    requires d != []
    ensures |View(d, lists)| == |d|
    ensures View(d, lists) == View(d[..|d| - 1], lists) + [Item(d[|d| - 1].key, ViewNode(d[|d| - 1].value, lists))]
    ensures View(d, lists)[..|d| - 1] == View(d[..|d| - 1], lists)
  {
    ViewAt(d, lists);
  }
}
