/**
 Loading YAML sources into new objects and folding them in place, and exactly when that gives what folding their values
 gives.
*/
module YamlFolding {
  import opened Common
  import opened OrderedDict
  import opened YamlTree
  import opened YamlObjects
  import opened YamlShapes
  import opened YamlSharing

  // ---------------------------------------------------------------- loading sources

  /** A source as the YAML loader builds it; an anchored list is one object in several places. */
  datatype Source = Source(conf: Objects, lists: Lists)

  ghost predicate ValidSource(s: Source) {
    Tidy(s.conf) && forall r :: r in RefsOf(s.conf) ==> r < |s.lists|
  }

  function ShiftNode(v: Node<Ref>, base: nat): Node<Ref>
    decreases v
  {
    match v
    case Mapping(entries) => Mapping(Shift(entries, base))
    case List(r) => List(base + r)
    case Scalar(text) => Scalar(text)
  }

  /** The same configuration over objects that come after the first `base` ones. */
  function Shift(d: Objects, base: nat): Objects
    decreases d
  {
    if d == [] then [] else Shift(d[..|d| - 1], base) + [Item(d[|d| - 1].key, ShiftNode(d[|d| - 1].value, base))]
  }

  lemma {:induction false} ShiftAt(d: Objects, base: nat)
    ensures |Shift(d, base)| == |d|
    ensures forall i :: 0 <= i < |d| ==> Shift(d, base)[i] == Item(d[i].key, ShiftNode(d[i].value, base))
  {
    if d != [] {
      ShiftAt(d[..|d| - 1], base);
    }
  }

  lemma {:induction false} ShiftGet(d: Objects, base: nat, key: string)
    ensures Get(Shift(d, base), key) == if Get(d, key).Some? then Some(ShiftNode(Get(d, key).value, base)) else None
  {
    hide ShiftNode;
    if d != [] {
      var before, last := d[..|d| - 1], d[|d| - 1];
      ShiftGet(before, base, key);
      assert before + [last] == d;
      GetSnoc(Shift(before, base), Item(last.key, ShiftNode(last.value, base)), key);
      GetSnoc(before, last, key);
    }
  }

  lemma {:induction false} ShiftTidy(d: Objects, base: nat)
    requires Tidy(d)
    ensures Tidy(Shift(d, base))
    decreases d, 1
  {
    ShiftAt(d, base);
    forall i | 0 <= i < |d|
      ensures TidyNode(ShiftNode(d[i].value, base))
    {
      ShiftNodeTidy(d[i].value, base);
    }
  }

  lemma {:induction false} ShiftNodeTidy(v: Node<Ref>, base: nat)
    requires TidyNode(v)
    ensures TidyNode(ShiftNode(v, base))
    decreases v, 0
  {
    if v.Mapping? {
      ShiftTidy(v.entries, base);
    }
  }

  lemma {:induction false} ShiftRefs(d: Objects, base: nat, r: Ref)
    ensures r in RefsOf(Shift(d, base)) <==> base <= r && r - base in RefsOf(d)
    decreases d, 1
  {
    hide ShiftNode, RefsOfNode;
    if d != [] {
      var before, last := d[..|d| - 1], d[|d| - 1];
      ShiftRefs(before, base, r);
      ShiftNodeRefs(last.value, base, r);
      RefsSplit(d);
      ShiftAt(d, base);
      ShiftAt(before, base);
      assert Shift(d, base)[..|d| - 1] == Shift(before, base);
      RefsSplit(Shift(d, base));
    }
  }

  lemma {:induction false} ShiftNodeRefs(v: Node<Ref>, base: nat, r: Ref)
    ensures r in RefsOfNode(ShiftNode(v, base)) <==> base <= r && r - base in RefsOfNode(v)
    decreases v, 0
  {
    if v.Mapping? {
      ShiftRefs(v.entries, base, r);
    }
  }

  /** What a configuration stands for depends on its own lists, wherever they are kept. */
  lemma {:induction false} ShiftView(d: Objects, base: nat, lists: Lists, other: Lists)
    requires forall r :: r in RefsOf(d) ==> ItemsOf(other, base + r) == ItemsOf(lists, r)
    ensures View(Shift(d, base), other) == View(d, lists)
    decreases d, 1
  {
    hide ShiftNode, RefsOfNode, ViewNode;
    if d != [] {
      var before, last := d[..|d| - 1], d[|d| - 1];
      RefsSplit(d);
      ShiftView(before, base, lists, other);
      ShiftNodeView(last.value, base, lists, other);
      ShiftAt(d, base);
      ShiftAt(before, base);
      assert Shift(d, base)[..|d| - 1] == Shift(before, base);
      ViewBefore(Shift(d, base), other);
    }
  }

  lemma {:induction false} ShiftNodeView(v: Node<Ref>, base: nat, lists: Lists, other: Lists)
    requires forall r :: r in RefsOfNode(v) ==> ItemsOf(other, base + r) == ItemsOf(lists, r)
    ensures ViewNode(ShiftNode(v, base), other) == ViewNode(v, lists)
    decreases v, 0
  {
    if v.Mapping? {
      ShiftView(v.entries, base, lists, other);
    }
  }

  lemma {:induction false} ShiftNowhere(d: Objects)
    ensures Shift(d, 0) == d
    decreases d, 1
  {
    hide ShiftNode;
    if d != [] {
      var before, last := d[..|d| - 1], d[|d| - 1];
      assert Shift(d, 0) == Shift(before, 0) + [Item(last.key, ShiftNode(last.value, 0))];
      hide Shift;
      ShiftNowhere(before);
      ShiftNodeNowhere(last.value);
      assert before + [last] == d;
    }
  }

  lemma {:induction false} ShiftNodeNowhere(v: Node<Ref>)
    ensures ShiftNode(v, 0) == v
    decreases v, 0
  {
    if v.Mapping? {
      ShiftNowhere(v.entries);
    }
  }

  lemma {:induction false} ShiftPlace(d: Objects, base: nat, p: seq<string>)
    requires p != []
    ensures At(Shift(d, base), p) == if At(d, p).Some? then Some(ShiftNode(At(d, p).value, base)) else None
    decreases |p|
  {
    hide Get, Shift;
    ShiftGet(d, base, p[0]);
    var v := Get(d, p[0]);
    if |p| > 1 && v.Some? && v.value.Mapping? {
      ShiftPlace(v.value.entries, base, p[1..]);
    }
  }

  lemma {:induction false} ShiftUnshared(d: Objects, base: nat)
    requires Unshared(d)
    ensures Unshared(Shift(d, base))
  {
    hide At, Shift;
    forall p, q, r | Stands(Shift(d, base), [], p, r) && Stands(Shift(d, base), [], q, r)
      ensures p == q
    {
      ShiftPlace(d, base, p);
      ShiftPlace(d, base, q);
      NoKeys(p[0]);
      NoKeys(q[0]);
      var x := At(d, p).value.items;
      assert At(d, q) == Some(Node.List(x));
      assert Stands(d, [], p, x) && Stands(d, [], q, x);
    }
  }

  // ---------------------------------------------------------------- folding sources

  /** Each source is loaded into new objects and merged into what the earlier ones gave. */
  function Fold(sources: seq<Source>, extend: bool): Result<Merged<Objects>, MergeError> {
    if sources == [] then Ok(Merged([], []))
    else
      var before := Fold(sources[..|sources| - 1], extend);
      if before.Err? then before else FoldStep(before.value, sources[|sources| - 1], extend)
  }

  function FoldStep(m: Merged<Objects>, source: Source, extend: bool): Result<Merged<Objects>, MergeError> {
    UpdateObjects(m.value, Shift(source.conf, |m.lists|), extend, m.lists + source.lists)
  }

  ghost predicate AllValid(sources: seq<Source>) {
    forall i :: 0 <= i < |sources| ==> ValidSource(sources[i])
  }

  /** The configurations that the sources stand for. */
  function Values(sources: seq<Source>): seq<Config> {
    if sources == [] then []
    else Values(sources[..|sources| - 1]) + [View(sources[|sources| - 1].conf, sources[|sources| - 1].lists)]
  }

  ghost predicate ValidState(m: Merged<Objects>) {
    Tidy(m.value) && forall r :: r in RefsOf(m.value) ==> r < |m.lists|
  }

  /** Loading disturbs nothing, and what is loaded is new and stands for the source. */
  lemma {:induction false} Loaded(m: Merged<Objects>, s: Source)
    requires ValidState(m) && ValidSource(s)
    ensures var d, lists := Shift(s.conf, |m.lists|), m.lists + s.lists;
      && Tidy(d) && View(d, lists) == View(s.conf, s.lists) && View(m.value, lists) == View(m.value, m.lists)
      && ApartFrom(RefsOf(m.value), RefsOf(d), lists)
      && forall r :: r in RefsOf(d) ==> r < |lists|
  {
    hide Tidy, View, Shift, RefsOf;
    var base, lists := |m.lists|, m.lists + s.lists;
    ShiftTidy(s.conf, base);
    ShiftView(s.conf, base, s.lists, lists);
    ShiftNowhere(m.value);
    ShiftView(m.value, 0, m.lists, lists);
    forall r | r in RefsOf(Shift(s.conf, base))
      ensures base <= r < |lists|
    {
      ShiftRefs(s.conf, base, r);
    }
  }

  lemma {:induction false} StepKeepsState(m: Merged<Objects>, s: Source, extend: bool)
    requires ValidState(m) && ValidSource(s) && FoldStep(m, s, extend).Ok?
    ensures ValidState(FoldStep(m, s, extend).value)
  {
    hide Tidy, View, Shift, RefsOf, UpdateObjects;
    Loaded(m, s);
    MergeKeeps(m.value, Shift(s.conf, |m.lists|), extend, m.lists + s.lists);
  }

  lemma {:induction false} FoldKeepsState(sources: seq<Source>, extend: bool)
    requires AllValid(sources) && Fold(sources, extend).Ok?
    ensures ValidState(Fold(sources, extend).value)
  {
    hide ValidState, FoldStep, ValidSource;
    if sources != [] {
      FoldKeepsState(sources[..|sources| - 1], extend);
      StepKeepsState(Fold(sources[..|sources| - 1], extend).value, sources[|sources| - 1], extend);
    } else {
      EmptyState();
    }
  }

  lemma EmptyState()
    ensures ValidState(Merged([], [])) && View([], []) == [] && Unshared([])
  {
    NoRefs();
    forall p, r
      ensures !Stands([], [], p, r)
    {
      NoPlaces([], r);
    }
  }

  /** The fold over objects is the fold over the values they stand for. */
  ghost predicate FoldsValues(sources: seq<Source>, extend: bool) {
    match Fold(sources, extend)
    case Err(e) => UpdateAll(Values(sources), extend) == Err(e)
    case Ok(m) => UpdateAll(Values(sources), extend) == Ok(View(m.value, m.lists))
  }

  lemma ValuesSnoc(sources: seq<Source>, extend: bool)
    requires sources != []
    ensures var before, last := sources[..|sources| - 1], sources[|sources| - 1];
      UpdateAll(Values(sources), extend) ==
        if UpdateAll(Values(before), extend).Err? then UpdateAll(Values(before), extend)
        else Update(UpdateAll(Values(before), extend).value, View(last.conf, last.lists), extend)
  {
    hide View, Update;
    var before := Values(sources[..|sources| - 1]);
    assert Values(sources)[..|Values(sources)| - 1] == before;
  }

  /** Without extending lists, the fold merges values whatever the sources share. */
  lemma {:induction false} FoldByDefault(sources: seq<Source>)
    requires AllValid(sources)
    ensures FoldsValues(sources, false)
  {
    hide ValidState, ValidSource, View, Update, UpdateObjects, Shift, Values, UpdateAll;
    if sources != [] {
      var before, last := sources[..|sources| - 1], sources[|sources| - 1];
      FoldByDefault(before);
      ValuesSnoc(sources, false);
      if Fold(before, false).Ok? {
        var m := Fold(before, false).value;
        FoldKeepsState(before, false);
        Loaded(m, last);
        SharingIsHarmlessByDefault(m.value, Shift(last.conf, |m.lists|), m.lists + last.lists);
      }
    } else {
      EmptyFold();
    }
  }

  lemma EmptyFold()
    ensures FoldsValues([], false) && FoldsValues([], true)
  {
  }

  /** One more source, extending lists: exactly what sharing in the configuration so far does to the result. */
  lemma {:induction false} StepMergesValuesExactly(m: Merged<Objects>, s: Source)
    requires ValidState(m) && ValidSource(s)
    ensures SameOutcome(FoldStep(m, s, true), Update(View(m.value, m.lists), View(s.conf, s.lists), true))
    ensures var m' := FoldStep(m, s, true); m'.Ok? ==>
              (Update(View(m.value, m.lists), View(s.conf, s.lists), true) == Ok(View(m'.value.value, m'.value.lists))
               <==> !SharedListGrows(m.value, Shift(s.conf, |m.lists|), m.lists + s.lists))
  {
    hide Tidy, View, Update, UpdateObjects, Shift, SharedListGrows;
    Loaded(m, s);
    InPlaceMergesValuesExactly(m.value, Shift(s.conf, |m.lists|), m.lists + s.lists);
  }

  ghost predicate AllUnshared(sources: seq<Source>) {
    forall i :: 0 <= i < |sources| ==> Unshared(sources[i].conf)
  }

  /** Extending lists, the fold merges values if no source has one list in two places. */
  lemma {:induction false} FoldExtending(sources: seq<Source>)
    requires AllValid(sources) && AllUnshared(sources)
    ensures FoldsValues(sources, true)
    ensures Fold(sources, true).Ok? ==> Unshared(Fold(sources, true).value.value)
  {
    hide ValidSource, View, Update, UpdateObjects, Shift, Values, UpdateAll, Unshared, Tidy, RefsOf, SharedListGrows;
    if sources != [] {
      var before, last := sources[..|sources| - 1], sources[|sources| - 1];
      FoldExtending(before);
      ValuesSnoc(sources, true);
      if Fold(before, true).Ok? {
        var m := Fold(before, true).value;
        FoldKeepsState(before, true);
        Loaded(m, last);
        UnsharedIsHarmless(m.value, Shift(last.conf, |m.lists|), m.lists + last.lists);
        StepMergesValuesExactly(m, last);
        ShiftUnshared(last.conf, |m.lists|);
        if FoldStep(m, last, true).Ok? {
          UnsharedKept(m.value, Shift(last.conf, |m.lists|), m.lists + last.lists);
        }
      }
    } else {
      EmptyFold();
      EmptyState();
    }
  }

  // ---------------------------------------------------------------- extending lists: exactly when values are folded

  /**
   Merging source k, list object r gets items through p while it stands at q too; the items then also show at q, where
   the source has none of them.
  */
  ghost predicate Strays(sources: seq<Source>, k: nat, p: seq<string>, q: seq<string>, r: Ref) {
    && k < |sources| && Fold(sources[..k], true).Ok?
    && var m := Fold(sources[..k], true).value;
       GrowsTwice(m.value, Shift(sources[k].conf, |m.lists|), m.lists + sources[k].lists, p, q, r)
  }

  ghost predicate StraysAt(sources: seq<Source>, k: nat, q: seq<string>, r: Ref) {
    exists p :: Strays(sources, k, p, q, r)
  }

  /** Some source made the list object stray to that place. */
  ghost predicate StrayedTo(sources: seq<Source>, q: seq<string>, r: Ref) {
    exists k: nat :: StraysAt(sources, k, q, r)
  }

  /** And the object still stands there at the end. */
  ghost predicate StrayRemains(sources: seq<Source>) {
    && Fold(sources, true).Ok?
    && exists q: seq<string>, r: Ref :: Stands(Fold(sources, true).value.value, [], q, r) && StrayedTo(sources, q, r)
  }

  lemma StraysEarlier(sources: seq<Source>, k: nat, q: seq<string>, r: Ref)
    requires k < |sources| - 1
    ensures StraysAt(sources, k, q, r) <==> StraysAt(sources[..|sources| - 1], k, q, r)
  {
    hide Fold, Shift, GrowsTwice;
    var before := sources[..|sources| - 1];
    assert before[..k] == sources[..k];
    if p :| Strays(sources, k, p, q, r) {
      assert Strays(before, k, p, q, r);
    }
    if p :| Strays(before, k, p, q, r) {
      assert Strays(sources, k, p, q, r);
    }
  }

  lemma StraysInRange(sources: seq<Source>, k: nat, q: seq<string>, r: Ref)
    requires StraysAt(sources, k, q, r)
    ensures k < |sources|
  {
  }

  lemma {:induction false} StrayedLast(sources: seq<Source>, q: seq<string>, r: Ref)
    requires sources != []
    ensures StrayedTo(sources, q, r) <==>
            StrayedTo(sources[..|sources| - 1], q, r) || StraysAt(sources, |sources| - 1, q, r)
  {
    hide StraysAt;
    var before := sources[..|sources| - 1];
    if k: nat :| StraysAt(sources, k, q, r) {
      StraysInRange(sources, k, q, r);
      if k < |before| {
        StraysEarlier(sources, k, q, r);
      }
    }
    if k: nat :| StraysAt(before, k, q, r) {
      StraysInRange(before, k, q, r);
      StraysEarlier(sources, k, q, r);
    }
  }

  /** Only objects that were there before the last source can have strayed earlier. */
  lemma {:induction false} StrayedIsOld(sources: seq<Source>, q: seq<string>, r: Ref)
    requires AllValid(sources) && Fold(sources, true).Ok? && StrayedTo(sources, q, r)
    ensures r < |Fold(sources, true).value.lists|
  {
    hide Shift, View, Tidy, RefsOf, UpdateObjects, Stays, Supplied, At, StrayedTo;
    if sources == [] {
      assert false by {
        NothingStrays(q, r);
      }
    } else {
      var before, s := sources[..|sources| - 1], sources[|sources| - 1];
      var m := Fold(before, true).value;
      FoldKeepsState(before, true);
      Loaded(m, s);
      MergeKeeps(m.value, Shift(s.conf, |m.lists|), true, m.lists + s.lists);
      StrayedLast(sources, q, r);
      if StrayedTo(before, q, r) {
        StrayedIsOld(before, q, r);
      } else {
        PlaceIsRef(m.value, q, r);
      }
    }
  }

  lemma NothingStrays(q: seq<string>, r: Ref)
    ensures !StrayedTo([], q, r)
  {
  }

  /** The fold of objects and the fold of values fail alike and have one shape. */
  ghost predicate FoldsShape(sources: seq<Source>) {
    match Fold(sources, true)
    case Err(e) => UpdateAll(Values(sources), true) == Err(e)
    case Ok(m) => UpdateAll(Values(sources), true).Ok? && SameShape(m.value, UpdateAll(Values(sources), true).value)
  }

  lemma {:induction false} ShapesFold(sources: seq<Source>)
    requires AllValid(sources)
    ensures FoldsShape(sources)
  {
    hide ValidSource, View, Update, UpdateObjects, Shift, Values, UpdateAll, Tidy, RefsOf, SameShape;
    if sources != [] {
      var before, s := sources[..|sources| - 1], sources[|sources| - 1];
      ShapesFold(before);
      ValuesSnoc(sources, true);
      if Fold(before, true).Ok? {
        var m := Fold(before, true).value;
        FoldKeepsState(before, true);
        Loaded(m, s);
        ShapeMerges(m.value, Shift(s.conf, |m.lists|), m.lists + s.lists, UpdateAll(Values(before), true).value);
      }
    } else {
      EmptyFoldsShape();
    }
  }

  lemma EmptyFoldsShape()
    ensures FoldsShape([])
  {
  }

  lemma {:induction false} ValuesWellFormed(sources: seq<Source>)
    requires AllValid(sources)
    ensures AllWellFormed(Values(sources))
  {
    hide View, WellFormed, Tidy;
    if sources != [] {
      var s := sources[|sources| - 1];
      ValuesWellFormed(sources[..|sources| - 1]);
      assert ValidSource(s);
      TidyView(s.conf, s.lists);
    }
  }

  /** At every place of a list object: what the values have there, and more exactly if the object strayed there. */
  ghost predicate HoldsUnlessStrayed(sources: seq<Source>, q: seq<string>, r: Ref)
    requires q != [] && Fold(sources, true).Ok? && UpdateAll(Values(sources), true).Ok?
  {
    var held := ItemsOf(Fold(sources, true).value.lists, r);
    var wanted := ListAt(UpdateAll(Values(sources), true).value, q);
    if StrayedTo(sources, q, r) then |wanted| < |held| else held == wanted
  }

  /** One source on, for an object that stays where it was. */
  lemma {:induction false} OldListHolds(sources: seq<Source>, q: seq<string>, r: Ref)
    requires AllValid(sources) && sources != [] && Fold(sources, true).Ok? && q != []
    requires Fold(sources[..|sources| - 1], true).Ok? && UpdateAll(Values(sources[..|sources| - 1]), true).Ok?
    requires UpdateAll(Values(sources), true).Ok?
    requires HoldsUnlessStrayed(sources[..|sources| - 1], q, r)
    requires var m, s := Fold(sources[..|sources| - 1], true).value, sources[|sources| - 1];
             && Stands(m.value, Shift(s.conf, |m.lists|), q, r)
             && ListAt(UpdateAll(Values(sources), true).value, q) ==
                ListAt(UpdateAll(Values(sources[..|sources| - 1]), true).value, q) +
                Supplied(Shift(s.conf, |m.lists|), q, m.lists + s.lists)
    ensures HoldsUnlessStrayed(sources, q, r)
  {
    hide Shift, View, Tidy, RefsOf, UpdateObjects, UpdateAll, Values, Stands, Supplied, ListAt, StrayedTo, Grown;
    var before, s := sources[..|sources| - 1], sources[|sources| - 1];
    var m := Fold(before, true).value;
    var d, lists := Shift(s.conf, |m.lists|), m.lists + s.lists;
    FoldKeepsState(before, true);
    Loaded(m, s);
    MergeAppends(m.value, d, lists);
    StandingIsOld(m, d, q, r);
    StrayedLast(sources, q, r);
    if p :| Strays(sources, |before|, p, q, r) {
      GrownByBoth(m.value, d, lists, p, q, r);
    } else {
      forall p | p != q && Stands(m.value, d, p, r)
        ensures Supplied(d, p, lists) == []
      {
        assert !Strays(sources, |before|, p, q, r);
      }
      GrownOnce(m.value, d, lists, q, r);
    }
  }

  lemma StandingIsOld(m: Merged<Objects>, d: Objects, q: seq<string>, r: Ref)
    requires ValidState(m) && Stands(m.value, d, q, r)
    ensures r < |m.lists|
  {
    PlaceIsRef(m.value, q, r);
  }

  /** What the last source adds to a list of the values. */
  lemma {:induction false} ListOfLast(sources: seq<Source>, q: seq<string>, r: Ref)
    requires AllValid(sources) && sources != [] && Fold(sources, true).Ok? && UpdateAll(Values(sources), true).Ok?
    requires q != [] && At(Fold(sources, true).value.value, q) == Some(Node.List(r))
    ensures Fold(sources[..|sources| - 1], true).Ok? && UpdateAll(Values(sources[..|sources| - 1]), true).Ok?
    ensures var m, s := Fold(sources[..|sources| - 1], true).value, sources[|sources| - 1];
      ListAt(UpdateAll(Values(sources), true).value, q) ==
        ListAt(UpdateAll(Values(sources[..|sources| - 1]), true).value, q) +
        Supplied(Shift(s.conf, |m.lists|), q, m.lists + s.lists)
  {
    hide Shift, View, Tidy, RefsOf, UpdateObjects, Update, UpdateAll, Values, At, SameShape, ListAt, Supplied,
      WellFormed;
    var before, s := sources[..|sources| - 1], sources[|sources| - 1];
    var m := Fold(before, true).value;
    ValuesSnoc(sources, true);
    FoldKeepsState(before, true);
    Loaded(m, s);
    ValuesWellFormed(before);
    UpdateAllWellFormed(Values(before), true);
    TidyView(s.conf, s.lists);
    ShapesFold(sources);
    ShapeAt(Fold(sources, true).value.value, UpdateAll(Values(sources), true).value, q);
    ListAfter(UpdateAll(Values(before), true).value, View(s.conf, s.lists), q);
    ListAtView(Shift(s.conf, |m.lists|), m.lists + s.lists, q);
  }

  /** One source on, for an object that comes from this source. */
  lemma {:induction false} NewListHolds(sources: seq<Source>, q: seq<string>, r: Ref)
    requires AllValid(sources) && sources != [] && Fold(sources, true).Ok? && q != []
    requires Fold(sources[..|sources| - 1], true).Ok? && UpdateAll(Values(sources[..|sources| - 1]), true).Ok?
    requires UpdateAll(Values(sources), true).Ok?
    requires var m, s := Fold(sources[..|sources| - 1], true).value, sources[|sources| - 1];
             && !(At(m.value, q).Some? && At(m.value, q).value.List?)
             && At(Shift(s.conf, |m.lists|), q) == Some(Node.List(r))
             && ListAt(UpdateAll(Values(sources), true).value, q) ==
                ListAt(UpdateAll(Values(sources[..|sources| - 1]), true).value, q) +
                Supplied(Shift(s.conf, |m.lists|), q, m.lists + s.lists)
    ensures HoldsUnlessStrayed(sources, q, r)
  {
    hide Shift, View, Tidy, RefsOf, UpdateObjects, UpdateAll, Values, At, StrayedTo, Grown, SameShape;
    var before, s := sources[..|sources| - 1], sources[|sources| - 1];
    var m := Fold(before, true).value;
    var d, lists := Shift(s.conf, |m.lists|), m.lists + s.lists;
    ShapesFold(before);
    ShapeAt(m.value, UpdateAll(Values(before), true).value, q);
    FoldKeepsState(before, true);
    Loaded(m, s);
    PlaceIsRef(d, q, r);
    MergeAppends(m.value, d, lists);
    GrownInside(m.value, d, lists, r);
    StrayedLast(sources, q, r);
    if StrayedTo(before, q, r) {
      StrayedIsOld(before, q, r);
      ShiftRefs(s.conf, |m.lists|, r);
    }
  }

  lemma {:induction false} EveryListHolds(sources: seq<Source>, q: seq<string>, r: Ref)
    requires AllValid(sources) && Fold(sources, true).Ok? && UpdateAll(Values(sources), true).Ok?
    requires q != [] && At(Fold(sources, true).value.value, q) == Some(Node.List(r))
    ensures HoldsUnlessStrayed(sources, q, r)
  {
    hide Shift, View, Tidy, RefsOf, UpdateObjects, Update, UpdateAll, Values, At, StrayedTo, Grown, Strays, SameShape,
      ListAt, Supplied;
    if sources != [] {
      var before, s := sources[..|sources| - 1], sources[|sources| - 1];
      var m := Fold(before, true).value;
      var d, lists := Shift(s.conf, |m.lists|), m.lists + s.lists;
      ShapesFold(before);
      FoldKeepsState(before, true);
      Loaded(m, s);
      ListOfLast(sources, q, r);
      PlaceOrigin(m.value, d, lists, q, r);
      if At(m.value, q).Some? && At(m.value, q).value.List? {
        EveryListHolds(before, q, r);
        OldListHolds(sources, q, r);
      } else {
        NewListHolds(sources, q, r);
      }
    } else {
      StandsAt([], q, r);
      NoPlaces([], r);
    }
  }

  /**
   Extending lists, folding any sources in place fails as folding their values fails; and it gives the folded values
   exactly when no list object still stands at a place that it ever strayed to.
   */
  lemma {:induction false} FoldsValuesExactly(sources: seq<Source>)
    requires AllValid(sources)
    ensures match Fold(sources, true)
      case Err(e) => UpdateAll(Values(sources), true) == Err(e)
      case Ok(m) =>
        && UpdateAll(Values(sources), true).Ok?
        && (View(m.value, m.lists) == UpdateAll(Values(sources), true).value <==> !StrayRemains(sources))
  {
    hide Shift, View, Tidy, RefsOf, UpdateAll, Values, At, StrayedTo, SameShape, Stands, Fold, ListAt;
    ShapesFold(sources);
    if Fold(sources, true).Ok? {
      var m, c := Fold(sources, true).value, UpdateAll(Values(sources), true).value;
      FoldKeepsState(sources, true);
      ViewsEqualExactly(m.value, m.lists, c);
      forall q: seq<string>, r: Ref | q != [] && Stands(m.value, [], q, r)
        ensures HoldsUnlessStrayed(sources, q, r)
      {
        StandsAt(m.value, q, r);
        EveryListHolds(sources, q, r);
      }
      if StrayRemains(sources) {
        var q, r :| Stands(m.value, [], q, r) && StrayedTo(sources, q, r);
        StandsAt(m.value, q, r);
        assert ListAt(c, q) != ItemsOf(m.lists, r);
      }
    }
  }
}
