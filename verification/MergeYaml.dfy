/** The YAML merge as it runs: loading sources into new objects, merging in place, folding all sources. */
module MergeYaml {
  import opened Common
  import opened OrderedDict
  import opened YamlTree
  import opened YamlObjects
  import opened YamlSharing
  import opened YamlFolding

  // ---------------------------------------------------------------- the code

  lemma {:induction false} FailurePropagates(conf: Objects, update: Objects, extend: bool, lists: Lists, n: nat)
    requires n <= |update| && UpdateObjects(conf, update[..n], extend, lists).Err?
    ensures UpdateObjects(conf, update, extend, lists) == UpdateObjects(conf, update[..n], extend, lists)
    decreases |update| - n
  {
    if n < |update| {
      assert update[..n + 1][..n] == update[..n];
      FailurePropagates(conf, update, extend, lists, n + 1);
    } else {
      assert update[..n] == update;
    }
  }

  lemma {:induction false} FoldFails(sources: seq<Source>, extend: bool, n: nat)
    requires n <= |sources| && Fold(sources[..n], extend).Err?
    ensures Fold(sources, extend) == Fold(sources[..n], extend)
    decreases |sources| - n
  {
    if n < |sources| {
      assert sources[..n + 1][..n] == sources[..n];
      FoldFails(sources, extend, n + 1);
    } else {
      assert sources[..n] == sources;
    }
  }

  /** Loading says nothing that depends on the configuration loaded so far. */
  lemma {:induction false} LoadedAnew(lists: Lists, s: Source)
    requires ValidSource(s)
    ensures var d, after := Shift(s.conf, |lists|), lists + s.lists;
      && Tidy(d) && View(d, after) == View(s.conf, s.lists)
      && (forall r :: r in RefsOf(d) ==> |lists| <= r < |after|)
      && (forall p, q, r :: p != [] && q != [] && At(d, p) == Some(Node.List(r)) ==>
            (At(d, q) == Some(Node.List(r)) <==> At(s.conf, q).Some? && At(s.conf, q) == At(s.conf, p)))
      && (forall conf :: ValidState(Merged(conf, lists)) ==> View(conf, after) == View(conf, lists))
  {
    hide Tidy, View, Shift, RefsOf, At;
    var d, base := Shift(s.conf, |lists|), |lists|;
    EmptyStateIn(lists);
    Loaded(Merged([], lists), s);
    forall r | r in RefsOf(d)
      ensures base <= r
    {
      ShiftRefs(s.conf, base, r);
    }
    forall p, q, r | p != [] && q != [] && At(d, p) == Some(Node.List(r))
      ensures At(d, q) == Some(Node.List(r)) <==> At(s.conf, q).Some? && At(s.conf, q) == At(s.conf, p)
    {
      ShiftPlace(s.conf, base, p);
      ShiftPlace(s.conf, base, q);
    }
    forall conf | ValidState(Merged(conf, lists))
      ensures View(conf, lists + s.lists) == View(conf, lists)
    {
      Loaded(Merged(conf, lists), s);
    }
  }

  lemma EmptyStateIn(lists: Lists)
    ensures ValidState(Merged([], lists))
  {
    NoRefs();
    TidyEmpty();
  }

  class Merger {
    var lists: Lists

    constructor ()
      ensures lists == []
    {
      lists := [];
    }

    /**
     The loader makes new list objects, one for each of the source's own: what it returns stands for the source, shares
     lists as the source does and none with a configuration loaded before, whose lists are as they were.
     */
    method Load(source: Source) returns (d: Objects)
      requires ValidSource(source)
      modifies this
      ensures Tidy(d) && View(d, lists) == View(source.conf, source.lists)
      ensures forall p, q, r :: p != [] && q != [] && At(d, p) == Some(Node.List(r)) ==>
                (At(d, q) == Some(Node.List(r)) <==>
                 At(source.conf, q).Some? && At(source.conf, q) == At(source.conf, p))
      ensures forall r :: r in RefsOf(d) ==> old(|lists|) <= r < |lists|
      ensures forall conf :: ValidState(Merged(conf, old(lists))) ==> View(conf, lists) == View(conf, old(lists))
      ensures d == Shift(source.conf, old(|lists|)) && lists == old(lists) + source.lists
    {
      hide Shift, View, Tidy, RefsOf, At;
      LoadedAnew(lists, source);
      d := Shift(source.conf, |lists|);
      lists := lists + source.lists;
    }

    /** The recursive update: mappings are merged in place, lists are taken over or extended in place. */
    method UpdateNestedConf(conf: Objects, update: Objects, extend: bool) returns (r: Result<Objects, MergeError>)
      modifies `lists
      ensures match UpdateObjects(conf, update, extend, old(lists))
        case Ok(m) => r == Ok(m.value) && lists == m.lists
        case Err(e) => r == Err(e)
      decreases update
    {
      hide Put, Find, Has, Get;
      var out := conf;
      for i := 0 to |update|
        invariant UpdateObjects(conf, update[..i], extend, old(lists)) == Ok(Merged(out, lists))
      {
        var k, v := update[i].key, update[i].value;
        var was := Get(out, k);
        assert update[..i + 1][..i] == update[..i];
        HasIsGet(out, k);
        if v.Mapping? {
          if was.None? || was.value.Mapping? {
            var nested := UpdateNestedConf(if was.None? then [] else was.value.entries, v.entries, extend);
            if nested.Err? {
              FailurePropagates(conf, update, extend, old(lists), i + 1);
              return nested;
            }
            out := Put(out, k, Mapping(nested.value));
          } else if v.entries != [] {
            FailurePropagates(conf, update, extend, old(lists), i + 1);
            return Err(NotAMapping(k));
          } else {
            out := Put(out, k, was.value);
          }
        } else if was.Some? && was.value.List? && extend {
          if !v.List? {
            FailurePropagates(conf, update, extend, old(lists), i + 1);
            return Err(NotAList(k));
          }
          lists := Extended(lists, was.value.items, ItemsOf(lists, v.items));
          PutSame(out, k);
        } else {
          out := Put(out, k, v);
        }
      }
      assert update[..|update|] == update;
      r := Ok(out);
    }

    /** The action's loop over the sources. */
    method Run(sources: seq<Source>, extend: bool) returns (r: Result<Objects, MergeError>)
      requires lists == [] && AllValid(sources)
      modifies this
      ensures match Fold(sources, extend)
        case Ok(m) => r == Ok(m.value) && lists == m.lists
        case Err(e) => r == Err(e)
      ensures match UpdateAll(Values(sources), extend)
        case Ok(c) => r.Ok? && (View(r.value, lists) == c <==> !extend || !StrayRemains(sources))
        case Err(e) => r == Err(e)
    {
      hide UpdateObjects, Shift, View, UpdateAll, ValidSource, StrayRemains;
      var output: Objects := [];
      for i := 0 to |sources|
        invariant Fold(sources[..i], extend) == Ok(Merged(output, lists))
      {
        assert sources[..i + 1][..i] == sources[..i];
        var source := Load(sources[i]);
        r := UpdateNestedConf(output, source, extend);
        if r.Err? {
          FoldFails(sources, extend, i + 1);
          RunFolds(sources, extend);
          return;
        }
        output := r.value;
      }
      assert sources[..|sources|] == sources;
      RunFolds(sources, extend);
      r := Ok(output);
    }
  }

  lemma RunFolds(sources: seq<Source>, extend: bool)
    requires AllValid(sources)
    ensures match Fold(sources, extend)
      case Err(e) => UpdateAll(Values(sources), extend) == Err(e)
      case Ok(m) =>
        && UpdateAll(Values(sources), extend).Ok?
        && (View(m.value, m.lists) == UpdateAll(Values(sources), extend).value <==> !extend || !StrayRemains(sources))
  {
    hide Fold, UpdateAll, StrayRemains;
    if extend {
      FoldsValuesExactly(sources);
    } else {
      FoldByDefault(sources);
    }
  }

  // ---------------------------------------------------------------- a list in two places

  lemma {:induction false} LoadedAlone(a: string, b: string, x: seq<string>)
    requires a != b
    ensures var conf: Objects := [Item(a, List(0)), Item(b, List(0))];
      Fold([Source(conf, [x])], true) == Ok(Merged(conf, [x]))
  {
    var conf: Objects := [Item(a, List(0)), Item(b, List(0))];
    var s := Source(conf, [x]);
    assert [s][..0] == [];
    ShiftNowhere(conf);
    assert [] + [x] == [x];
    assert conf[..1] == [Item(a, Node.List(0))] && conf[..1][..0] == [];
    NoKeys(a);
    FindUnique(conf[..1], 0);
    FindFinds(conf[..1], b);
    assert UpdateObjects([], conf[..1], true, [x]) == Ok(Merged(conf[..1], [x]));
    HasIsGet(conf[..1], b);
    assert Get(conf[..1], b).None? && Put(conf[..1], b, Node.List(0)) == conf;
    assert UpdateObjects([], conf, true, [x]) == Ok(Merged(conf, [x]));
    var none: Objects, nothing: Lists := [], [];
    assert FoldStep(Merged(none, nothing), s, true) == UpdateObjects([], conf, true, [x]);
  }

  lemma ExtendOne(c: Config, key: string, y: seq<string>)
    requires Get(c, key).Some? && Get(c, key).value.List?
    ensures Update(c, [Item(key, List(y))], true) == Ok(Put(c, key, List(Get(c, key).value.items + y)))
  {
    assert [Item(key, List(y))][..0] == [];
  }

  lemma ExtendOneObject(conf: Objects, key: string, r: Ref, lists: Lists)
    requires Get(conf, key).Some? && Get(conf, key).value.List?
    ensures UpdateObjects(conf, [Item(key, List(r))], true, lists) ==
            Ok(Merged(conf, Extended(lists, Get(conf, key).value.items, ItemsOf(lists, r))))
  {
    assert [Item(key, List(r))][..0] == [];
    HasIsGet(conf, key);
    PutSame(conf, key);
  }

  /** A source with one list anchored in two places, and a later source with items for one of them. */
  lemma {:induction false} SharedListGrowsTwice(a: string, b: string, x: seq<string>, y: seq<string>)
    requires a != b && y != []
    ensures var first := Source([Item(a, List(0)), Item(b, List(0))], [x]);
      var second := Source([Item(a, List(0))], [y]);
      var m := Fold([first, second], true);
      && m.Ok? && View(m.value.value, m.value.lists) == [Item(a, List(x + y)), Item(b, List(x + y))]
      && Update(View(first.conf, first.lists), View(second.conf, second.lists), true) ==
           Ok([Item(a, List(x + y)), Item(b, List(x))])
  {
    hide Update, UpdateObjects, View, Shift;
    var conf: Objects := [Item(a, List(0)), Item(b, List(0))];
    var update: Objects := [Item(a, List(0))];
    var first, second := Source(conf, [x]), Source(update, [y]);
    LoadedAlone(a, b, x);
    assert [first, second][..1] == [first];
    ShiftAt(update, 1);
    assert Shift(update, 1) == [Item(a, Node.List(1))];
    assert [x] + [y] == [x, y];
    FindUnique(conf, 0);
    assert Get(conf, a) == Some(conf[0].value);
    ExtendOneObject(conf, a, 1, [x, y]);
    assert Extended([x, y], 0, y) == [x + y, y];
    ViewAt(conf, [x]);
    ViewAt(update, [y]);
    ViewAt(conf, [x + y, y]);
    var c := View(conf, [x]);
    assert c == [Item(a, List(x)), Item(b, List(x))];
    assert View(update, [y]) == [Item(a, List(y))];
    FindUnique(c, 0);
    assert Get(c, a) == Some(c[0].value);
    ExtendOne(c, a, y);
    assert Put(c, a, List(x + y)) == [Item(a, List(x + y)), Item(b, List(x))];
  }
}
