/**
 Nested configurations as values, and what merging one into another means.  Keys of mappings are text; what integer keys
 do to a list is the subject of YamlIndexing.
*/
module YamlTree {
  import opened Common
  import opened OrderedDict

  /** A configuration node; `L` is what stands for a list: its contents, or a reference to them. */
  datatype Node<L> =
    | Mapping(entries: Dict<Node<L>>)
    | List(items: L)
    | Scalar(text: string)

  /** Contents of a list are not looked into. */
  type Tree = Node<seq<string>>

  type Config = Dict<Tree>

  /** The key at which merging failed. */
  datatype MergeError = NotAMapping(key: string) | NotAList(key: string)

  // ---------------------------------------------------------------- merging

  /** What key `key` becomes, given what it was and what the update says. */
  function UpdateEntry(key: string, was: Option<Tree>, v: Tree, extend: bool): Result<Tree, MergeError>
    decreases v
  {
    match v
    case Mapping(u) =>
      if was.None? || was.value.Mapping? then
        var c := Update(if was.None? then [] else was.value.entries, u, extend);
        if c.Ok? then Ok(Mapping(c.value)) else Err(c.error)
      else if u == [] then Ok(was.value)
      else Err(NotAMapping(key))
    case List(l) =>
      if extend && was.Some? && was.value.List? then Ok(List(was.value.items + l)) else Ok(v)
    case Scalar(_) =>
      if extend && was.Some? && was.value.List? then Err(NotAList(key)) else Ok(v)
  }

  function Update(conf: Config, update: Config, extend: bool): Result<Config, MergeError>
    decreases update
  {
    if update == [] then Ok(conf)
    else
      var c := Update(conf, update[..|update| - 1], extend);
      var last := update[|update| - 1];
      if c.Err? then c
      else
        var v := UpdateEntry(last.key, Get(c.value, last.key), last.value, extend);
        if v.Ok? then Ok(Put(c.value, last.key, v.value)) else Err(v.error)
  }

  /** No mapping anywhere in it repeats a key. */
  ghost predicate WellFormed(d: Config)
    decreases d
  {
    Distinct(d) && forall i :: 0 <= i < |d| ==> WellFormedNode(d[i].value)
  }

  ghost predicate WellFormedNode(v: Tree)
    decreases v
  {
    v.Mapping? ==> WellFormed(v.entries)
  }

  lemma WellFormedSplit(d: Config)
    requires WellFormed(d) && d != []
    ensures var before, last := d[..|d| - 1], d[|d| - 1];
      && WellFormed(before) && WellFormedNode(last.value) && !Has(before, last.key)
      && before + [last] == d
  {
    FindFinds(d[..|d| - 1], d[|d| - 1].key);
  }

  lemma WellFormedGet(d: Config, key: string)
    requires WellFormed(d) && Has(d, key)
    ensures WellFormedNode(Get(d, key).value)
  {
    FindFinds(d, key);
  }

  lemma WellFormedPut(d: Config, key: string, v: Tree)
    requires WellFormed(d) && WellFormedNode(v)
    ensures WellFormed(Put(d, key, v))
  {
    PutKeepsDistinct(d, key, v);
    FindFinds(d, key);
  }

  function EntriesOf(was: Option<Tree>): Config {
    if was.Some? && was.value.Mapping? then was.value.entries else []
  }

  lemma {:induction false} UpdateWellFormed(conf: Config, update: Config, extend: bool)
    requires WellFormed(conf) && WellFormed(update) && Update(conf, update, extend).Ok?
    ensures WellFormed(Update(conf, update, extend).value)
    decreases update
  {
    hide WellFormed;
    if update != [] {
      var before, last := update[..|update| - 1], update[|update| - 1];
      WellFormedSplit(update);
      UpdateWellFormed(conf, before, extend);
      var c := Update(conf, before, extend).value;
      if Has(c, last.key) {
        WellFormedGet(c, last.key);
      }
      EntryWellFormed(last.key, Get(c, last.key), last.value, extend);
      WellFormedPut(c, last.key, UpdateEntry(last.key, Get(c, last.key), last.value, extend).value);
    }
  }

  lemma {:induction false} EntryWellFormed(key: string, was: Option<Tree>, v: Tree, extend: bool)
    requires (was.Some? ==> WellFormedNode(was.value)) && WellFormedNode(v) && UpdateEntry(key, was, v, extend).Ok?
    ensures WellFormedNode(UpdateEntry(key, was, v, extend).value)
    decreases v
  {
    if v.Mapping? && (was.None? || was.value.Mapping?) {
      UpdateWellFormed(EntriesOf(was), v.entries, extend);
    }
  }

  // ---------------------------------------------------------------- key by key

  /** What an update makes of one key. */
  function Entry(conf: Config, update: Config, key: string, extend: bool): Result<Tree, MergeError>
    requires Has(update, key)
  {
    UpdateEntry(key, Get(conf, key), Get(update, key).value, extend)
  }

  /** A merge fails exactly when some key of the update fails, and otherwise every key is decided by itself. */
  lemma {:induction false} KeyByKey(conf: Config, update: Config, extend: bool, key: string)
    requires WellFormed(conf) && WellFormed(update) && Update(conf, update, extend).Ok?
    ensures var r := Update(conf, update, extend).value;
      if Has(update, key) then
        Entry(conf, update, key, extend).Ok? && Get(r, key) == Some(Entry(conf, update, key, extend).value)
      else Get(r, key) == Get(conf, key)
    decreases update
  {
    hide WellFormed, UpdateEntry;
    if update != [] {
      var before, last := update[..|update| - 1], update[|update| - 1];
      WellFormedSplit(update);
      KeyByKey(conf, before, extend, key);
      KeyByKey(conf, before, extend, last.key);
      UpdateWellFormed(conf, before, extend);
      var c := Update(conf, before, extend).value;
      WellFormedIsDistinct(c);
      GetPut(c, last.key, UpdateEntry(last.key, Get(c, last.key), last.value, extend).value, key);
      FindSnoc(before, last, key);
      GetSnoc(before, last, key);
    }
  }

  lemma WellFormedIsDistinct(d: Config)
    requires WellFormed(d)
    ensures Distinct(d)
  {
  }

  lemma {:induction false} FailsAtAKey(conf: Config, update: Config, extend: bool)
    requires WellFormed(conf) && WellFormed(update)
    ensures Update(conf, update, extend).Err? <==>
            exists key :: Has(update, key) && Entry(conf, update, key, extend).Err?
    decreases update
  {
    hide WellFormed, UpdateEntry;
    if update != [] {
      var before, last := update[..|update| - 1], update[|update| - 1];
      WellFormedSplit(update);
      FailsAtAKey(conf, before, extend);
      var c := Update(conf, before, extend);
      if c.Ok? {
        KeyByKey(conf, before, extend, last.key);
      }
      forall key
        ensures Has(update, key) <==> Has(before, key) || key == last.key
        ensures Has(update, key) ==> Get(update, key) == if key == last.key then Some(last.value) else Get(before, key)
      {
        FindSnoc(before, last, key);
        GetSnoc(before, last, key);
      }
      if key :| Has(before, key) && Entry(conf, before, key, extend).Err? {
        assert Has(update, key) && Entry(conf, update, key, extend).Err?;
      }
      assert Has(update, last.key);
    }
  }

  lemma {:induction false} UpdateOrder(conf: Config, update: Config, extend: bool)
    requires WellFormed(conf) && WellFormed(update) && Update(conf, update, extend).Ok?
    ensures Keys(Update(conf, update, extend).value) == FirstAppearances(Keys(conf) + Keys(update))
    decreases update
  {
    hide WellFormed, UpdateEntry, Put, Get, FirstAppearances, Find, Has, Distinct;
    if update == [] {
      assert Keys(conf) + Keys(update) == Keys(conf);
      WellFormedIsDistinct(conf);
      FirstAppearancesOfDistinct(conf);
    } else {
      var before, last := update[..|update| - 1], update[|update| - 1];
      WellFormedSplit(update);
      UpdateOrder(conf, before, extend);
      var c := Update(conf, before, extend).value;
      KeysAfterPut(c, last.key, UpdateEntry(last.key, Get(c, last.key), last.value, extend).value);
      OneMoreName(Keys(conf), Keys(before), last.key);
    }
  }

  lemma OneMoreName(a: seq<string>, b: seq<string>, name: string)
    ensures FirstAppearances(a + (b + [name])) ==
            var before := FirstAppearances(a + b); if name in before then before else before + [name]
  {
    assert a + (b + [name]) == a + b + [name];
    FirstAppearancesSnoc(a + b, name);
  }

  // ---------------------------------------------------------------- path by path

  /** What stands at a path. */
  function At<L>(d: Dict<Node<L>>, path: seq<string>): Option<Node<L>>
    requires path != []
    decreases |path|
  {
    var v := Get(d, path[0]);
    if |path| == 1 || v.None? then v
    else if v.value.Mapping? then At(v.value.entries, path[1..])
    else None
  }

  /** The update says nothing about a path: walking down its mappings ends at a key it does not have. */
  predicate Untouched(update: Config, path: seq<string>)
    requires path != []
    decreases |path|
  {
    var v := Get(update, path[0]);
    v.None? || (|path| > 1 && v.value.Mapping? && Untouched(v.value.entries, path[1..]))
  }

  /**
   The result at a path: as it was where the update says nothing, what the update makes of it where it says
   something, and nothing below a leaf of the update.
   */
  ghost predicate DecidedAt(conf: Config, update: Config, extend: bool, path: seq<string>, r: Config)
    requires path != []
  {
    if Untouched(update, path) then At(r, path) == At(conf, path)
    else if At(update, path).None? then At(r, path).None?
    else
      var v := UpdateEntry(path[|path| - 1], At(conf, path), At(update, path).value, extend);
      v.Ok? && At(r, path) == Some(v.value)
  }

  lemma {:induction false} EveryPath(conf: Config, update: Config, extend: bool, path: seq<string>)
    requires WellFormed(conf) && WellFormed(update) && path != [] && Update(conf, update, extend).Ok?
    ensures DecidedAt(conf, update, extend, path, Update(conf, update, extend).value)
    decreases |path|, 0
  {
    hide WellFormed, Update, Get, Has;
    KeyByKey(conf, update, extend, path[0]);
    HasIsGet(update, path[0]);
    HasIsGet(conf, path[0]);
    var was, v := Get(conf, path[0]), Get(update, path[0]);
    if v.Some? && |path| > 1 && v.value.Mapping? {
      WellFormedGet(update, path[0]);
      if was.Some? {
        WellFormedGet(conf, path[0]);
      }
      WellFormedEmpty();
      NothingThere(path[1..]);
      EntryAtPath(path[0], was, v.value.entries, extend, path[1..]);
      assert path[1..][|path| - 2] == path[|path| - 1];
    }
  }

  lemma WellFormedEmpty()
    ensures WellFormed([])
  {
  }

  lemma NothingThere(path: seq<string>)
    requires path != []
    ensures At<seq<string>>([], path).None? && Untouched([], path)
  {
  }

  lemma {:induction false} EntryAtPath(key: string, was: Option<Tree>, u: Config, extend: bool, path: seq<string>)
    requires WellFormed(EntriesOf(was)) && WellFormed(u) && path != [] && UpdateEntry(key, was, Mapping(u), extend).Ok?
    ensures var r := UpdateEntry(key, was, Mapping(u), extend).value;
      if r.Mapping? then DecidedAt(EntriesOf(was), u, extend, path, r.entries)
      else was == Some(r) && At(u, path).None? && Untouched(u, path)
    decreases |path|, 1
  {
    hide WellFormed, Get, Has, Update;
    NothingThere(path);
    if UpdateEntry(key, was, Mapping(u), extend).value.Mapping? {
      EveryPath(EntriesOf(was), u, extend, path);
    }
  }

  // ---------------------------------------------------------------- when merging fails

  /** A non-empty mapping meets something that is not a mapping, or, extending lists, a scalar meets a list. */
  predicate Clash(conf: Config, update: Config, extend: bool, path: seq<string>)
    requires path != []
  {
    var was, v := At(conf, path), At(update, path);
    && was.Some? && v.Some? && !was.value.Mapping?
    && (if v.value.Mapping? then v.value.entries != [] else extend && was.value.List? && v.value.Scalar?)
  }

  /**
   A merge raises an error exactly when there is a clash somewhere; so, as long as keys are text, no item of a list is
   lost silently.
  */
  lemma FailsExactlyOnClash(conf: Config, update: Config, extend: bool)
    requires WellFormed(conf) && WellFormed(update)
    ensures Update(conf, update, extend).Err? <==> exists path :: path != [] && Clash(conf, update, extend, path)
  {
    if Update(conf, update, extend).Err? {
      var path := FindClash(conf, update, extend);
    }
    forall path | path != [] && Clash(conf, update, extend, path)
      ensures Update(conf, update, extend).Err?
    {
      ClashFails(conf, update, extend, path);
    }
  }

  lemma {:induction false} ClashFails(conf: Config, update: Config, extend: bool, path: seq<string>)
    requires WellFormed(conf) && WellFormed(update) && path != [] && Clash(conf, update, extend, path)
    ensures Update(conf, update, extend).Err?
    decreases |path|
  {
    hide WellFormed, Update, Get, Has;
    FailsAtAKey(conf, update, extend);
    HasIsGet(update, path[0]);
    HasIsGet(conf, path[0]);
    if |path| > 1 {
      WellFormedGet(update, path[0]);
      WellFormedGet(conf, path[0]);
      assert path[1..][|path| - 2] == path[|path| - 1];
      var c, u := Get(conf, path[0]).value, Get(update, path[0]).value;
      assert WellFormedNode(c) && WellFormedNode(u);
      ClashFails(c.entries, u.entries, extend, path[1..]);
    }
    assert Entry(conf, update, path[0], extend).Err?;
  }

  lemma {:induction false} FindClash(conf: Config, update: Config, extend: bool) returns (path: seq<string>)
    requires WellFormed(conf) && WellFormed(update) && Update(conf, update, extend).Err?
    ensures path != [] && Clash(conf, update, extend, path)
    decreases update
  {
    FailsAtAKey(conf, update, extend);
    var key :| Has(update, key) && Entry(conf, update, key, extend).Err?;
    FindFinds(update, key);
    var was, v := Get(conf, key), Get(update, key).value;
    path := [key];
    if v.Mapping? && (was.None? || was.value.Mapping?) {
      WellFormedGet(update, key);
      if was.Some? {
        WellFormedGet(conf, key);
      }
      var rest := FindClash(EntriesOf(was), v.entries, extend);
      NothingThere(rest);
      path := [key] + rest;
      assert path[1..] == rest;
    }
  }

  /** The error names the key at which something clashes, and what was expected there. */
  ghost predicate Explains(e: MergeError, conf: Config, update: Config, extend: bool, path: seq<string>)
    requires path != []
  {
    && Clash(conf, update, extend, path) && e.key == path[|path| - 1]
    && (e.NotAMapping? <==> At(update, path).value.Mapping?)
  }

  lemma {:induction false} ErrorIsExplained(conf: Config, update: Config, extend: bool) returns (path: seq<string>)
    requires WellFormed(conf) && WellFormed(update) && Update(conf, update, extend).Err?
    ensures path != [] && Explains(Update(conf, update, extend).error, conf, update, extend, path)
    decreases update
  {
    hide WellFormed, Find;
    var before, last := update[..|update| - 1], update[|update| - 1];
    WellFormedSplit(update);
    var c := Update(conf, before, extend);
    if c.Err? {
      path := ErrorIsExplained(conf, before, extend);
      GetSnoc(before, last, path[0]);
      HasIsGet(before, path[0]);
    } else {
      KeyByKey(conf, before, extend, last.key);
      GetSnoc(before, last, last.key);
      HasIsGet(conf, last.key);
      path := [last.key];
      var was := Get(conf, last.key);
      if last.value.Mapping? && (was.None? || was.value.Mapping?) {
        if was.Some? {
          WellFormedGet(conf, last.key);
        }
        EntriesWellFormed(was);
        EntriesWellFormed(Some(last.value));
        var rest := ErrorIsExplained(EntriesOf(was), last.value.entries, extend);
        NothingThere(rest);
        path := [last.key] + rest;
        assert path[1..] == rest;
      }
    }
  }

  lemma EntriesWellFormed(v: Option<Tree>)
    requires v.Some? ==> WellFormedNode(v.value)
    ensures WellFormed(EntriesOf(v))
  {
  }

  // ---------------------------------------------------------------- repeating and grouping

  lemma {:induction false} NothingNew(a: seq<string>, b: seq<string>)
    requires forall name :: name in b ==> name in FirstAppearances(a)
    ensures FirstAppearances(a + b) == FirstAppearances(a)
  {
    if b == [] {
      assert a + b == a;
    } else {
      NothingNew(a, b[..|b| - 1]);
      assert a + b == a + b[..|b| - 1] + [b[|b| - 1]];
      FirstAppearancesSnoc(a + b[..|b| - 1], b[|b| - 1]);
    }
  }

  lemma {:induction false} Appears(names: seq<string>, name: string)
    ensures name in FirstAppearances(names) <==> name in names
  {
    if names != [] {
      Appears(names[..|names| - 1], name);
    }
  }

  /** Without extending lists, merging the same update once more changes nothing. */
  lemma {:induction false} UpdateIdempotent(conf: Config, update: Config)
    requires WellFormed(conf) && WellFormed(update) && Update(conf, update, false).Ok?
    ensures Update(Update(conf, update, false).value, update, false) == Update(conf, update, false)
    decreases update, 1
  {
    hide WellFormed, Update, UpdateEntry, Find, Get, Has, FirstAppearances, Keys;
    var r := Update(conf, update, false).value;
    UpdateWellFormed(conf, update, false);
    forall key | Has(update, key)
      ensures Get(r, key).Some? && Entry(r, update, key, false) == Ok(Get(r, key).value)
    {
      KeyByKey(conf, update, false, key);
      EntryOnceMore(conf, update, key);
    }
    FailsAtAKey(r, update, false);
    var r' := Update(r, update, false).value;
    UpdateWellFormed(r, update, false);
    WellFormedIsDistinct(r');
    forall key
      ensures Get(r', key) == Get(r, key)
    {
      KeyByKey(r, update, false, key);
    }
    SameOrderAgain(conf, update, r, r');
    SameKeysSameValues(r', r);
  }

  lemma SameOrderAgain(conf: Config, update: Config, r: Config, r': Config)
    requires WellFormed(conf) && WellFormed(update)
    requires Update(conf, update, false) == Ok(r) && Update(r, update, false) == Ok(r')
    ensures Keys(r') == Keys(r)
  {
    hide WellFormed, Update, FirstAppearances, Keys;
    UpdateWellFormed(conf, update, false);
    UpdateOrder(conf, update, false);
    UpdateOrder(r, update, false);
    FirstAppearancesKept(Keys(conf) + Keys(update), Keys(update));
    forall name | name in Keys(update)
      ensures name in FirstAppearances(Keys(conf) + Keys(update))
    {
      Appears(Keys(conf) + Keys(update), name);
    }
    NothingNew(Keys(conf) + Keys(update), Keys(update));
  }

  lemma {:induction false} EntryOnceMore(conf: Config, update: Config, key: string)
    requires WellFormed(conf) && WellFormed(update) && Has(update, key) && Entry(conf, update, key, false).Ok?
    ensures var v := Entry(conf, update, key, false).value;
      UpdateEntry(key, Some(v), Get(update, key).value, false) == Ok(v)
    decreases update, 0
  {
    hide WellFormed;
    FindFinds(update, key);
    WellFormedGet(update, key);
    var was, v := Get(conf, key), Get(update, key).value;
    if v.Mapping? && (was.None? || was.value.Mapping?) {
      if was.Some? {
        WellFormedGet(conf, key);
      }
      WellFormedEmpty();
      assert WellFormed(EntriesOf(was)) && WellFormed(v.entries);
      UpdateIdempotent(EntriesOf(was), v.entries);
    }
  }

  /** Whichever way three configurations are grouped, if both ways succeed they give the same, order of keys
       included. */
  lemma {:induction false} UpdateAssociates(a: Config, b: Config, c: Config, extend: bool, ab: Config, bc: Config,
                                            l: Config, r: Config)
    requires WellFormed(a) && WellFormed(b) && WellFormed(c)
    requires Update(a, b, extend) == Ok(ab) && Update(ab, c, extend) == Ok(l)
    requires Update(b, c, extend) == Ok(bc) && Update(a, bc, extend) == Ok(r)
    ensures l == r
    decreases c, 1
  {
    hide WellFormed, Update, UpdateEntry, Find, Get, Has, FirstAppearances, Keys;
    UpdateWellFormed(a, b, extend);
    UpdateWellFormed(b, c, extend);
    UpdateWellFormed(ab, c, extend);
    forall key
      ensures Get(l, key) == Get(r, key)
    {
      KeyByKey(a, b, extend, key);
      KeyByKey(ab, c, extend, key);
      KeyByKey(b, c, extend, key);
      KeyByKey(a, bc, extend, key);
      HasIsGet(b, key);
      HasIsGet(c, key);
      HasIsGet(bc, key);
      if Has(c, key) {
        EntryAssociates(a, b, c, extend, key);
      }
    }
    SameOrder(a, b, c, extend, ab, bc, l, r);
    WellFormedIsDistinct(l);
    SameKeysSameValues(l, r);
  }

  lemma {:induction false} SameOrder(a: Config, b: Config, c: Config, extend: bool, ab: Config, bc: Config, l: Config,
                                     r: Config)
    requires WellFormed(a) && WellFormed(b) && WellFormed(c)
    requires Update(a, b, extend) == Ok(ab) && Update(ab, c, extend) == Ok(l)
    requires Update(b, c, extend) == Ok(bc) && Update(a, bc, extend) == Ok(r)
    ensures Keys(l) == Keys(r)
  {
    hide WellFormed, Update, Keys, MergedKeys;
    UpdateWellFormed(a, b, extend);
    UpdateWellFormed(b, c, extend);
    MergedOrder(a, b, extend);
    MergedOrder(ab, c, extend);
    MergedOrder(b, c, extend);
    MergedOrder(a, bc, extend);
    OrderAssociates(Keys(a), Keys(b), Keys(c));
  }

  function MergedKeys(a: seq<string>, b: seq<string>): seq<string> {
    FirstAppearances(a + b)
  }

  lemma MergedOrder(conf: Config, update: Config, extend: bool)
    requires WellFormed(conf) && WellFormed(update) && Update(conf, update, extend).Ok?
    ensures Keys(Update(conf, update, extend).value) == MergedKeys(Keys(conf), Keys(update))
  {
    hide WellFormed, Update, FirstAppearances, Keys;
    UpdateOrder(conf, update, extend);
  }

  lemma OrderAssociates(a: seq<string>, b: seq<string>, c: seq<string>)
    ensures MergedKeys(MergedKeys(a, b), c) == MergedKeys(a, MergedKeys(b, c))
  {
    hide FirstAppearances;
    FirstAppearancesKept(a + b, c);
    FirstAppearancesOfRest(a, b + c);
    assert a + b + c == a + (b + c);
  }

  lemma {:induction false} FirstAppearancesOfRest(names: seq<string>, more: seq<string>)
    ensures FirstAppearances(names + FirstAppearances(more)) == FirstAppearances(names + more)
  {
    if more != [] {
      var before, last := more[..|more| - 1], more[|more| - 1];
      FirstAppearancesOfRest(names, before);
      OneMoreName(names, before, last);
      assert before + [last] == more;
      if last in FirstAppearances(before) {
        Appears(before, last);
        Appears(names + before, last);
      } else {
        OneMoreName(names, FirstAppearances(before), last);
      }
    }
  }

  /** One key of three configurations; the update of the middle one by the last may or may not have had it. */
  lemma {:induction false} EntryAssociates(a: Config, b: Config, c: Config, extend: bool, key: string)
    requires WellFormed(a) && WellFormed(b) && WellFormed(c) && Has(c, key)
    requires Has(b, key) ==> Entry(a, b, key, extend).Ok?
    requires var y := if Has(b, key) then Some(Entry(a, b, key, extend).value) else Get(a, key);
             UpdateEntry(key, y, Get(c, key).value, extend).Ok?
    requires Entry(b, c, key, extend).Ok? && UpdateEntry(key, Get(a, key), Entry(b, c, key, extend).value, extend).Ok?
    ensures var y := if Has(b, key) then Some(Entry(a, b, key, extend).value) else Get(a, key);
            UpdateEntry(key, y, Get(c, key).value, extend) ==
                UpdateEntry(key, Get(a, key), Entry(b, c, key, extend).value, extend)
    decreases c, 0
  {
    hide WellFormed;
    FindFinds(c, key);
    var x, vb, vc := Get(a, key), Get(b, key), Get(c, key).value;
    if Has(a, key) {
      WellFormedGet(a, key);
    }
    if Has(b, key) {
      WellFormedGet(b, key);
    }
    WellFormedGet(c, key);
    WellFormedEmpty();
    assert WellFormed(EntriesOf(x)) && WellFormed(EntriesOf(vb));
    if vc.Mapping? {
      if (vb.None? || vb.value.Mapping?) && (x.None? || x.value.Mapping?) {
        var ab := Update(EntriesOf(x), EntriesOf(vb), extend);
        var bc := Update(EntriesOf(vb), vc.entries, extend);
        UpdateAssociates(EntriesOf(x), EntriesOf(vb), vc.entries, extend, ab.value, bc.value,
                         Update(ab.value, vc.entries, extend).value, Update(EntriesOf(x), bc.value, extend).value);
      }
    } else if vc.List? && extend && x.Some? && x.value.List? && vb.Some? && vb.value.List? {
      assert x.value.items + vb.value.items + vc.items == x.value.items + (vb.value.items + vc.items);
    }
  }

  // ---------------------------------------------------------------- folding sources

  function UpdateAll(sources: seq<Config>, extend: bool): Result<Config, MergeError> {
    if sources == [] then Ok([])
    else
      var before := UpdateAll(sources[..|sources| - 1], extend);
      if before.Err? then before else Update(before.value, sources[|sources| - 1], extend)
  }

  ghost predicate AllWellFormed(sources: seq<Config>) {
    forall i :: 0 <= i < |sources| ==> WellFormed(sources[i])
  }

  lemma {:induction false} UpdateAllWellFormed(sources: seq<Config>, extend: bool)
    requires AllWellFormed(sources) && UpdateAll(sources, extend).Ok?
    ensures WellFormed(UpdateAll(sources, extend).value)
  {
    if sources != [] {
      UpdateAllWellFormed(sources[..|sources| - 1], extend);
      UpdateWellFormed(UpdateAll(sources[..|sources| - 1], extend).value, sources[|sources| - 1], extend);
    } else {
      WellFormedEmpty();
    }
  }

  /** Override: a leaf that later sources say nothing about stands in the result as its source has it. */
  lemma {:induction false} LastSourceWins(sources: seq<Config>, k: nat, path: seq<string>)
    requires AllWellFormed(sources) && UpdateAll(sources, false).Ok? && path != [] && k < |sources|
    requires At(sources[k], path).Some? && !At(sources[k], path).value.Mapping?
    requires forall j :: k < j < |sources| ==> Untouched(sources[j], path)
    ensures At(UpdateAll(sources, false).value, path) == At(sources[k], path)
  {
    hide WellFormed, Update;
    var before, last := sources[..|sources| - 1], sources[|sources| - 1];
    UpdateAllWellFormed(before, false);
    EveryPath(UpdateAll(before, false).value, last, false, path);
    if k < |sources| - 1 {
      LastSourceWins(before, k, path);
    } else {
      TouchedWhereSupplied(last, path);
    }
  }

  lemma {:induction false} TouchedWhereSupplied(update: Config, path: seq<string>)
    requires path != [] && At(update, path).Some?
    ensures !Untouched(update, path)
    decreases |path|
  {
    if |path| > 1 {
      TouchedWhereSupplied(Get(update, path[0]).value.entries, path[1..]);
    }
  }

  // ---------------------------------------------------------------- conservation of list items

  /** Mappings down to a list, as far as the configuration goes along the path. */
  predicate ListPath(d: Config, path: seq<string>)
    requires path != []
    decreases |path|
  {
    var v := Get(d, path[0]);
    v.None? || if |path| == 1 then v.value.List? else v.value.Mapping? && ListPath(v.value.entries, path[1..])
  }

  /** The list supplied at a path; none is as good as the empty one. */
  function ListAt(d: Config, path: seq<string>): seq<string>
    requires path != []
  {
    if At(d, path).Some? && At(d, path).value.List? then At(d, path).value.items else []
  }

  lemma {:induction false} ListPathAt(d: Config, path: seq<string>)
    requires path != [] && ListPath(d, path)
    ensures At(d, path).None? || At(d, path).value.List?
    ensures At(d, path).None? ==> Untouched(d, path)
    decreases |path|
  {
    if |path| > 1 && Get(d, path[0]).Some? {
      ListPathAt(Get(d, path[0]).value.entries, path[1..]);
    }
  }

  lemma {:induction false} ListPathKept(conf: Config, update: Config, path: seq<string>)
    requires WellFormed(conf) && WellFormed(update) && path != [] && Update(conf, update, true).Ok?
    requires ListPath(conf, path) && ListPath(update, path)
    ensures ListPath(Update(conf, update, true).value, path)
    decreases |path|
  {
    hide WellFormed, Update, Get, Has;
    KeyByKey(conf, update, true, path[0]);
    HasIsGet(update, path[0]);
    HasIsGet(conf, path[0]);
    if |path| > 1 && Get(update, path[0]).Some? {
      var was, u := Get(conf, path[0]), Get(update, path[0]).value.entries;
      WellFormedGet(update, path[0]);
      if was.Some? {
        WellFormedGet(conf, path[0]);
      }
      WellFormedEmpty();
      NothingListed(path[1..]);
      assert WellFormed(EntriesOf(was)) && WellFormed(u);
      ListPathKept(EntriesOf(was), u, path[1..]);
    }
  }

  lemma NothingListed(path: seq<string>)
    requires path != []
    ensures ListPath([], path)
  {
  }

  function Joined(sources: seq<Config>, path: seq<string>): seq<string>
    requires path != []
  {
    if sources == [] then [] else Joined(sources[..|sources| - 1], path) + ListAt(sources[|sources| - 1], path)
  }

  /** Extending lists, the list at a path is the lists the sources supply there, one after the other. */
  lemma {:induction false} ListsAreConserved(sources: seq<Config>, path: seq<string>)
    requires AllWellFormed(sources) && UpdateAll(sources, true).Ok? && path != []
    requires forall i :: 0 <= i < |sources| ==> ListPath(sources[i], path)
    ensures ListPath(UpdateAll(sources, true).value, path)
    ensures ListAt(UpdateAll(sources, true).value, path) == Joined(sources, path)
  {
    hide WellFormed, Update, ListPath, At;
    if sources == [] {
      NothingListed(path);
      NothingThere(path);
    } else {
      var before, last := sources[..|sources| - 1], sources[|sources| - 1];
      ListsAreConserved(before, path);
      UpdateAllWellFormed(before, true);
      var conf := UpdateAll(before, true).value;
      ListPathKept(conf, last, path);
      EveryPath(conf, last, true, path);
      ListPathAt(conf, path);
      ListPathAt(last, path);
      if At(last, path).Some? {
        TouchedWhereSupplied(last, path);
      }
    }
  }
}
