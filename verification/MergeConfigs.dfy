/**
 The merging INI parser as it runs.  Python's dictionaries and lists are objects, and the parser shares them: the
 current section is one of the sections being read, and after a source is merged the result holds the very value
 lists that were read.  Those objects live here in two maps from references to contents.
*/
module MergeConfigs {
  import opened Common
  import opened OrderedDict
  import opened IniDocument
  import opened IniSource
  import opened IniRoundTrip

  type Ref = nat

  /** The contents of all dictionaries, of all lists, and the place that every list being read belongs to. */
  type Dicts = map<Ref, Dict<Ref>>
  type Lists = map<Ref, seq<Value>>
  type Owners = map<Ref, (string, string)>

  function DictAt(dicts: Dicts, r: Ref): Dict<Ref> {
    if r in dicts then dicts[r] else []
  }

  function ListAt(lists: Lists, r: Ref): seq<Value> {
    if r in lists then lists[r] else []
  }

  /** What a dictionary of references to value lists stands for. */
  function ViewSection(items: Dict<Ref>, lists: Lists): Section {
    seq(|items|, k requires 0 <= k < |items| => Item(items[k].key, ListAt(lists, items[k].value)))
  }

  /** What a dictionary of references to sections stands for. */
  function ViewDocument(names: Dict<Ref>, dicts: Dicts, lists: Lists): Document {
    seq(|names|, i requires 0 <= i < |names| => Item(names[i].key, ViewSection(DictAt(dicts, names[i].value), lists)))
  }

  // ---------------------------------------------------------------- searches and updates through the view

  lemma {:induction false} FindByKeys<V, W>(a: Dict<V>, b: Dict<W>, key: string)
    requires |a| == |b| && forall i :: 0 <= i < |a| ==> a[i].key == b[i].key
    ensures Find(a, key) == Find(b, key)
  {
    if a != [] {
      FindByKeys(a[..|a| - 1], b[..|b| - 1], key);
    }
  }

  lemma FindInSection(items: Dict<Ref>, lists: Lists, key: string)
    ensures Find(items, key) == Find(ViewSection(items, lists), key)
  {
    FindByKeys(items, ViewSection(items, lists), key);
  }

  lemma FindInDocument(names: Dict<Ref>, dicts: Dicts, lists: Lists, name: string)
    ensures Find(names, name) == Find(ViewDocument(names, dicts, lists), name)
  {
    FindByKeys(names, ViewDocument(names, dicts, lists), name);
  }

  /** Storing a list under a key stores its contents there. */
  lemma PutInSection(items: Dict<Ref>, lists: Lists, lists': Lists, key: string, r: Ref)
    requires forall k :: 0 <= k < |items| && items[k].key != key ==>
             ListAt(lists', items[k].value) == ListAt(lists, items[k].value)
    requires Distinct(items)
    ensures ViewSection(Put(items, key, r), lists') == Put(ViewSection(items, lists), key, ListAt(lists', r))
  {
    FindInSection(items, lists, key);
    FindFinds(items, key);
  }

  /** Storing a section under a name stores its contents there, if the other sections stay as they are. */
  lemma PutInDocument(names: Dict<Ref>, dicts: Dicts, lists: Lists,
                      dicts': Dicts, lists': Lists, name: string, r: Ref)
    requires Distinct(names)
    requires forall i :: 0 <= i < |names| && names[i].key != name ==>
               ViewSection(DictAt(dicts', names[i].value), lists') == ViewSection(DictAt(dicts, names[i].value), lists)
    ensures ViewDocument(Put(names, name, r), dicts', lists') ==
      Put(ViewDocument(names, dicts, lists), name, ViewSection(DictAt(dicts', r), lists'))
  {
    FindInDocument(names, dicts, lists, name);
    FindFinds(names, name);
  }

  lemma SectionInDocument(names: Dict<Ref>, dicts: Dicts, lists: Lists, name: string)
    ensures SectionOf(ViewDocument(names, dicts, lists), name) ==
      if Has(names, name) then ViewSection(DictAt(dicts, Get(names, name).value), lists) else []
  {
    FindInDocument(names, dicts, lists, name);
    FindFinds(names, name);
  }

  // ---------------------------------------------------------------- what keeps the objects apart

  /** Every object of the merged result is older than `mark`, and no section is kept in two places. */
  ghost predicate Settled(sections: Dict<Ref>, dicts: Dicts, mark: nat) {
    && Distinct(sections)
    && (forall i, j :: 0 <= i < j < |sections| ==> sections[i].value != sections[j].value)
    && forall i :: 0 <= i < |sections| ==> OldSection(sections[i].value, dicts, mark)
  }

  ghost predicate OldSection(r: Ref, dicts: Dicts, mark: nat) {
    && r < mark && r in dicts && Distinct(dicts[r])
    && forall k :: 0 <= k < |dicts[r]| ==> dicts[r][k].value < mark
  }

  /** Every section being read, and every list in it, was made for this source and has one place. */
  ghost predicate Apart(cur: Dict<Ref>, dicts: Dicts, owner: Owners, mark: nat, next: nat) {
    && Distinct(cur)
    && (forall i, j :: 0 <= i < j < |cur| ==> cur[i].value != cur[j].value)
    && forall i :: 0 <= i < |cur| ==> OwnSection(cur[i].key, cur[i].value, dicts, owner, mark, next)
  }

  ghost predicate OwnSection(name: string, r: Ref, dicts: Dicts, owner: Owners, mark: nat, next: nat) {
    && mark <= r < next && r in dicts && Distinct(dicts[r])
    && forall k :: 0 <= k < |dicts[r]| ==>
        mark <= dicts[r][k].value < next && Owns(owner, dicts[r][k].value, name, dicts[r][k].key)
  }

  ghost predicate Owns(owner: Owners, list: Ref, name: string, key: string) {
    list in owner && owner[list] == (name, key)
  }

  lemma ApartIsDistinct(cur: Dict<Ref>, dicts: Dicts, owner: Owners, mark: nat, next: nat)
    requires Apart(cur, dicts, owner, mark, next)
    ensures Distinct(cur)
  {
  }

  lemma OwnIsRecent(cur: Dict<Ref>, dicts: Dicts, owner: Owners, mark: nat, next: nat,
                    name: string, c: Ref)
    requires Apart(cur, dicts, owner, mark, next) && Get(cur, name) == Some(c)
    ensures mark <= c < next && c in dicts
  {
    FindFinds(cur, name);
    assert OwnSection(name, c, dicts, owner, mark, next);
  }

  // ---------------------------------------------------------------- a fresh dictionary

  lemma SettledAfterFresh(sections: Dict<Ref>, dicts: Dicts, lists: Lists, mark: nat, r: Ref, d: Dict<Ref>)
    requires Settled(sections, dicts, mark) && mark <= r
    ensures Settled(sections, dicts[r := d], mark)
    ensures ViewDocument(sections, dicts[r := d], lists) == ViewDocument(sections, dicts, lists)
  {
    hide Distinct;
  }

  lemma ApartAfterFresh(cur: Dict<Ref>, dicts: Dicts, owner: Owners, mark: nat, next: nat, name: string)
    requires Apart(cur, dicts, owner, mark, next) && mark <= next
    ensures Apart(Put(cur, name, next), dicts[next := []], owner, mark, next + 1)
  {
    hide Owns;
    PutKeepsDistinct(cur, name, next);
    FindFinds(cur, name);
    forall i | 0 <= i < |cur|
      ensures OwnSection(cur[i].key, cur[i].value, dicts[next := []], owner, mark, next + 1)
    {
      assert OwnSection(cur[i].key, cur[i].value, dicts, owner, mark, next);
    }
  }

  lemma ViewAfterFresh(cur: Dict<Ref>, dicts: Dicts, lists: Lists, owner: Owners,
                       mark: nat, next: nat, name: string)
    requires Apart(cur, dicts, owner, mark, next)
    requires Has(cur, name) ==> DictAt(dicts, Get(cur, name).value) == []
    ensures ViewDocument(Put(cur, name, next), dicts[next := []], lists) ==
            PutSection(ViewDocument(cur, dicts, lists), name, [])
  {
    hide Owns, Put, Find;
    PutInDocument(cur, dicts, lists, dicts[next := []], lists, name, next);
    SectionInDocument(cur, dicts, lists, name);
    assert ViewSection([], lists) == [];
  }

  lemma OpenAgain(cur: Dict<Ref>, dicts: Dicts, lists: Lists, name: string)
    requires Distinct(cur) && Has(cur, name)
    ensures ViewDocument(cur, dicts, lists) == PutSection(ViewDocument(cur, dicts, lists), name, [])
  {
    SectionInDocument(cur, dicts, lists, name);
    PutInDocument(cur, dicts, lists, dicts, lists, name, Get(cur, name).value);
    FindFinds(cur, name);
    assert Put(cur, name, Get(cur, name).value) == cur;
  }

  // ---------------------------------------------------------------- one more value for a key

  lemma SettledAfterOwn(sections: Dict<Ref>, dicts: Dicts, lists: Lists, mark: nat,
                        c: Ref, d: Dict<Ref>, r: Ref, w: seq<Value>)
    requires Settled(sections, dicts, mark) && mark <= c && mark <= r
    ensures Settled(sections, dicts[c := d], mark)
    ensures ViewDocument(sections, dicts[c := d], lists[r := w]) == ViewDocument(sections, dicts, lists)
  {
    hide Distinct;
    forall i | 0 <= i < |sections|
      ensures ViewSection(DictAt(dicts[c := d], sections[i].value), lists[r := w]) ==
              ViewSection(DictAt(dicts, sections[i].value), lists)
    {
      assert OldSection(sections[i].value, dicts, mark);
    }
  }

  lemma ApartAfterNewList(cur: Dict<Ref>, dicts: Dicts, owner: Owners, mark: nat, next: nat,
                          name: string, c: Ref, key: string)
    requires Apart(cur, dicts, owner, mark, next) && mark <= next && Get(cur, name) == Some(c)
    ensures Apart(cur, dicts[c := Put(DictAt(dicts, c), key, next)], owner[next := (name, key)], mark, next + 1)
  {
    hide Put;
    var items := DictAt(dicts, c);
    FindFinds(cur, name);
    OwnAfterNewList(dicts, owner, mark, next, name, c, key);
    forall i | 0 <= i < |cur|
      ensures OwnSection(cur[i].key, cur[i].value, dicts[c := Put(items, key, next)], owner[next := (name, key)],
              mark, next + 1)
    {
      assert OwnSection(cur[i].key, cur[i].value, dicts, owner, mark, next);
    }
  }

  lemma OwnAfterNewList(dicts: Dicts, owner: Owners, mark: nat, next: nat,
                        name: string, c: Ref, key: string)
    requires OwnSection(name, c, dicts, owner, mark, next) && mark <= next
    ensures OwnSection(name, c, dicts[c := Put(dicts[c], key, next)], owner[next := (name, key)], mark, next + 1)
  {
    PutKeepsDistinct(dicts[c], key, next);
    FindFinds(dicts[c], key);
  }

  /** Changing the current section changes nothing else of what is being read. */
  lemma ViewAfterChange(cur: Dict<Ref>, dicts: Dicts, lists: Lists,
                        dicts': Dicts, lists': Lists, name: string, c: Ref)
    requires Distinct(cur) && Get(cur, name) == Some(c)
    requires forall i :: 0 <= i < |cur| && cur[i].key != name ==>
               ViewSection(DictAt(dicts', cur[i].value), lists') == ViewSection(DictAt(dicts, cur[i].value), lists)
    ensures ViewDocument(cur, dicts', lists') ==
            Put(ViewDocument(cur, dicts, lists), name, ViewSection(DictAt(dicts', c), lists'))
  {
    PutInDocument(cur, dicts, lists, dicts', lists', name, c);
    FindFinds(cur, name);
    assert Put(cur, name, c) == cur;
  }

  lemma ViewAfterNewList(cur: Dict<Ref>, dicts: Dicts, lists: Lists, owner: Owners,
                         mark: nat, next: nat, name: string, c: Ref, key: string, v: Value)
    requires Apart(cur, dicts, owner, mark, next) && Get(cur, name) == Some(c)
    ensures ViewDocument(cur, dicts[c := Put(DictAt(dicts, c), key, next)], lists[next := [v]]) ==
      Put(ViewDocument(cur, dicts, lists), name, Put(ViewSection(DictAt(dicts, c), lists), key, [v]))
  {
    var dicts', lists' := dicts[c := Put(DictAt(dicts, c), key, next)], lists[next := [v]];
    FindFinds(cur, name);
    assert OwnSection(name, c, dicts, owner, mark, next);
    PutInSection(dicts[c], lists, lists', key, next);
    forall i | 0 <= i < |cur| && cur[i].key != name
      ensures ViewSection(DictAt(dicts', cur[i].value), lists') == ViewSection(DictAt(dicts, cur[i].value), lists)
    {
      hide Put, Find, Distinct;
      assert OwnSection(cur[i].key, cur[i].value, dicts, owner, mark, next);
    }
    ViewAfterChange(cur, dicts, lists, dicts', lists', name, c);
  }

  lemma ViewAfterAppend(cur: Dict<Ref>, dicts: Dicts, lists: Lists, owner: Owners,
                        mark: nat, next: nat, name: string, c: Ref, key: string, r: Ref, w: seq<Value>)
    requires Apart(cur, dicts, owner, mark, next) && Get(cur, name) == Some(c) && Get(DictAt(dicts, c), key) == Some(r)
    ensures mark <= r
    ensures ViewDocument(cur, dicts, lists[r := w]) ==
      Put(ViewDocument(cur, dicts, lists), name, Put(ViewSection(DictAt(dicts, c), lists), key, w))
  {
    var lists' := lists[r := w];
    FindFinds(cur, name);
    FindFinds(dicts[c], key);
    assert OwnSection(name, c, dicts, owner, mark, next);
    assert Owns(owner, r, name, key);
    forall k | 0 <= k < |dicts[c]| && dicts[c][k].key != key
      ensures dicts[c][k].value != r
    {
      assert Owns(owner, dicts[c][k].value, name, dicts[c][k].key);
    }
    PutInSection(dicts[c], lists, lists', key, r);
    assert Put(dicts[c], key, r) == dicts[c];
    forall i | 0 <= i < |cur| && cur[i].key != name
      ensures ViewSection(DictAt(dicts, cur[i].value), lists') == ViewSection(DictAt(dicts, cur[i].value), lists)
    {
      hide Put, Find, Distinct;
      OtherListsDiffer(cur[i].key, cur[i].value, dicts, owner, mark, next, name, key, r);
    }
    ViewAfterChange(cur, dicts, lists, dicts, lists', name, c);
  }

  lemma OtherListsDiffer(other: string, c: Ref, dicts: Dicts, owner: Owners, mark: nat, next: nat,
                         name: string, key: string, r: Ref)
    requires OwnSection(other, c, dicts, owner, mark, next) && other != name && Owns(owner, r, name, key)
    ensures forall k :: 0 <= k < |DictAt(dicts, c)| ==> dicts[c][k].value != r
  {
    forall k | 0 <= k < |dicts[c]|
      ensures dicts[c][k].value != r
    {
      assert Owns(owner, dicts[c][k].value, other, dicts[c][k].key);
    }
  }

  /** The values a key has so far, through the objects. */
  lemma ValuesInView(cur: Dict<Ref>, dicts: Dicts, lists: Lists, name: string, c: Ref, key: string)
    requires Get(cur, name) == Some(c)
    ensures var d := ViewDocument(cur, dicts, lists);
      && SectionOf(d, name) == ViewSection(DictAt(dicts, c), lists)
      && ValuesOf(d, name, key) ==
          if Has(DictAt(dicts, c), key) then ListAt(lists, Get(DictAt(dicts, c), key).value) else []
  {
    SectionInDocument(cur, dicts, lists, name);
    FindInSection(DictAt(dicts, c), lists, key);
    FindFinds(DictAt(dicts, c), key);
  }

  // ---------------------------------------------------------------- merging what was read into the result

  lemma SettledLater(sections: Dict<Ref>, dicts: Dicts, mark: nat, next: nat)
    requires Settled(sections, dicts, mark) && mark <= next
    ensures Settled(sections, dicts, next)
  {
    hide Distinct;
    forall i | 0 <= i < |sections|
      ensures OldSection(sections[i].value, dicts, next)
    {
      assert OldSection(sections[i].value, dicts, mark);
    }
  }

  lemma SettledIsDistinct(sections: Dict<Ref>, dicts: Dicts, mark: nat)
    requires Settled(sections, dicts, mark)
    ensures Distinct(sections)
  {
  }

  /** The merged result takes over a list as it is: both now hold the same object. */
  lemma StoreShared(sections: Dict<Ref>, dicts: Dicts, lists: Lists, next: nat,
                    name: string, t: Ref, key: string, r: Ref)
    requires Settled(sections, dicts, next) && Get(sections, name) == Some(t) && r < next
    ensures var dicts' := dicts[t := Put(DictAt(dicts, t), key, r)]; var d := ViewDocument(sections, dicts, lists);
      && Settled(sections, dicts', next)
      && ViewDocument(sections, dicts', lists) == Put(d, name, Put(SectionOf(d, name), key, ListAt(lists, r)))
  {
    var dicts' := dicts[t := Put(DictAt(dicts, t), key, r)];
    FindFinds(sections, name);
    assert OldSection(t, dicts, next);
    SectionInDocument(sections, dicts, lists, name);
    PutInSection(dicts[t], lists, lists, key, r);
    ViewAfterChange(sections, dicts, lists, dicts', lists, name, t);
    StoreKeepsOld(dicts, next, t, key, r);
    forall i | 0 <= i < |sections|
      ensures OldSection(sections[i].value, dicts', next)
    {
      hide Put, Find, Distinct;
      assert OldSection(sections[i].value, dicts, next);
    }
  }

  lemma StoreKeepsOld(dicts: Dicts, next: nat, t: Ref, key: string, r: Ref)
    requires OldSection(t, dicts, next) && r < next
    ensures OldSection(t, dicts[t := Put(dicts[t], key, r)], next)
  {
    PutKeepsDistinct(dicts[t], key, r);
    FindFinds(dicts[t], key);
  }

  lemma NewResultSection(sections: Dict<Ref>, dicts: Dicts, lists: Lists, next: nat, name: string)
    requires Settled(sections, dicts, next) && !Has(sections, name)
    ensures Settled(Put(sections, name, next), dicts[next := []], next + 1)
    ensures ViewDocument(Put(sections, name, next), dicts[next := []], lists) ==
            PutSection(ViewDocument(sections, dicts, lists), name, [])
    ensures Get(Put(sections, name, next), name) == Some(next)
  {
    SectionInDocument(sections, dicts, lists, name);
    SettledAfterFresh(sections, dicts, lists, next, next, []);
    PutInDocument(sections, dicts[next := []], lists, dicts[next := []], lists, name, next);
    assert ViewSection([], lists) == [];
    GetPut(sections, name, next, name);
    PutKeepsDistinct(sections, name, next);
    forall i | 0 <= i < |sections|
      ensures OldSection(sections[i].value, dicts[next := []], next + 1)
    {
      hide Put, Find, Distinct;
      assert OldSection(sections[i].value, dicts, next);
    }
  }

  /** One more key of a section merged: the step of `MergeSection` under the name of the section. */
  lemma StoreStep(d: Document, name: string, s: Section, k: nat)
    requires WellFormed(d) && k < |s|
    ensures var d' := PutSection(d, name, s[..k]);
      Put(d', name, Put(SectionOf(d', name), s[k].key, s[k].value)) == PutSection(d, name, s[..k + 1])
  {
    SectionOfPut(d, name, s[..k], name);
    assert s[..k + 1][..k] == s[..k];
    PutTwice(d, name, MergeSection(SectionOf(d, name), s[..k]), MergeSection(SectionOf(d, name), s[..k + 1]));
  }

  lemma OpenedThenStored(d: Document, name: string, s: Section)
    requires WellFormed(d)
    ensures PutSection(PutSection(d, name, []), name, s) == PutSection(d, name, s)
  {
    SectionOfPut(d, name, [], name);
    PutTwice(d, name, SectionOf(d, name), MergeSection(SectionOf(d, name), s));
  }

  lemma ViewWellFormed(sections: Dict<Ref>, dicts: Dicts, lists: Lists, next: nat)
    requires Settled(sections, dicts, next)
    ensures WellFormed(ViewDocument(sections, dicts, lists))
  {
    forall i | 0 <= i < |sections|
      ensures Distinct(ViewSection(DictAt(dicts, sections[i].value), lists))
    {
      assert OldSection(sections[i].value, dicts, next);
    }
  }

  /** The result keeps away from the sections that were read. */
  ghost predicate Away(sections: Dict<Ref>, mark: nat, since: nat) {
    forall i :: 0 <= i < |sections| ==> sections[i].value < mark || since <= sections[i].value
  }

  lemma SettledIsAway(sections: Dict<Ref>, dicts: Dicts, mark: nat, since: nat)
    requires Settled(sections, dicts, mark)
    ensures Away(sections, mark, since)
  {
    forall i | 0 <= i < |sections|
      ensures sections[i].value < mark
    {
      assert OldSection(sections[i].value, dicts, mark);
    }
  }

  lemma AwayAfterPut(sections: Dict<Ref>, mark: nat, since: nat, name: string, r: Ref)
    requires Away(sections, mark, since) && since <= r
    ensures Away(Put(sections, name, r), mark, since)
  {
    FindFinds(sections, name);
  }

  lemma AwayAt(sections: Dict<Ref>, mark: nat, since: nat, name: string, t: Ref)
    requires Away(sections, mark, since) && Get(sections, name) == Some(t)
    ensures t < mark || since <= t
  {
    FindFinds(sections, name);
  }

  lemma ViewLength(names: Dict<Ref>, dicts: Dicts, lists: Lists)
    ensures |ViewDocument(names, dicts, lists)| == |names|
    ensures forall i :: 0 <= i < |names| ==>
              ViewDocument(names, dicts, lists)[i] ==
                  Item(names[i].key, ViewSection(DictAt(dicts, names[i].value), lists))
  {
  }

  lemma SectionLength(items: Dict<Ref>, lists: Lists)
    ensures |ViewSection(items, lists)| == |items|
    ensures forall k :: 0 <= k < |items| ==>
            ViewSection(items, lists)[k] == Item(items[k].key, ListAt(lists, items[k].value))
  {
  }

  lemma OwnLists(cur: Dict<Ref>, dicts: Dicts, owner: Owners, mark: nat, next: nat, i: nat)
    requires Apart(cur, dicts, owner, mark, next) && i < |cur|
    ensures mark <= cur[i].value < next
    ensures forall k :: 0 <= k < |DictAt(dicts, cur[i].value)| ==> DictAt(dicts, cur[i].value)[k].value < next
  {
    assert OwnSection(cur[i].key, cur[i].value, dicts, owner, mark, next);
  }

  lemma NothingRead(dicts: Dicts, lists: Lists, owner: Owners, mark: nat, next: nat)
    ensures Apart([], dicts, owner, mark, next) && ViewDocument([], dicts, lists) == []
  {
  }

  class OverrideConfigParser {
    var dicts: Dicts
    var lists: Lists
    var next: nat

    var curSections: Dict<Ref>
    var sections: Dict<Ref>
    var curSection: Option<Ref>
    const space: nat

    /** The name of the current section, where every list being read belongs, and when this source was begun. */
    ghost var open: Option<string>
    ghost var owner: Owners
    ghost var mark: nat

    constructor (whitespace: bool)
      ensures Ready() && View() == [] && space == if whitespace then 1 else 0
    {
      dicts, lists, next := map[], map[], 0;
      curSections, sections, curSection := [], [], None;
      space := if whitespace then 1 else 0;
      open, owner, mark := None, map[], 0;
    }

    ghost function View(): Document
      reads this
    {
      ViewDocument(sections, dicts, lists)
    }

    ghost function Current(): Reading
      reads this
    {
      Reading(ViewDocument(curSections, dicts, lists), open)
    }

    ghost predicate Ready()
      reads this
    {
      Settled(sections, dicts, next)
    }

    ghost predicate Valid()
      reads this
    {
      && mark <= next
      && Settled(sections, dicts, mark)
      && Apart(curSections, dicts, owner, mark, next)
      && curSection.Some? == open.Some?
      && (open.Some? ==> Has(curSections, open.value) && Get(curSections, open.value) == curSection)
    }

    /** Re-opening a section that has no keys yet replaces its dictionary; it keeps its place. */
    method NewSection(name: string)
      requires Valid()
      modifies this
      ensures Valid() && curSection.Some?
      ensures Current() == Open(old(Current()), name)
      ensures sections == old(sections) && View() == old(View()) && mark == old(mark)
    {
      hide Settled, Apart, Put, Find, Has, Get, Distinct, PutSection, ViewDocument, ViewSection;
      var found := Get(curSections, name);
      HasIsGet(curSections, name);
      ApartIsDistinct(curSections, dicts, owner, mark, next);
      if found.None? || DictAt(dicts, found.value) == [] {
        ViewAfterFresh(curSections, dicts, lists, owner, mark, next, name);
        ApartAfterFresh(curSections, dicts, owner, mark, next, name);
        SettledAfterFresh(sections, dicts, lists, mark, next, []);
        GetPut(curSections, name, next, name);
        dicts := dicts[next := []];
        curSections := Put(curSections, name, next);
        curSection := Some(next);
        next := next + 1;
      } else {
        OpenAgain(curSections, dicts, lists, name);
        curSection := found;
      }
      open := Some(name);
    }

    method Assignment(key: string, value: Value)
      requires Valid()
      modifies this
      ensures Valid()
      ensures Current() == Assign(old(Current()), key, value)
      ensures sections == old(sections) && View() == old(View()) && mark == old(mark)
    {
      hide Settled, Apart, Put, Find, Has, Get, Distinct, PutSection, ViewDocument, ViewSection;
      if curSection.None? {
        NewSection(ORPHAN_SECTION);
      }
      AssignCurrent(key, if |value| == 1 && value[0] == "" then [] else value);
    }

    method AssignCurrent(key: string, v: Value)
      requires Valid() && curSection.Some?
      modifies this
      ensures Valid() && open == old(open)
      ensures var r := old(Current()); var section := SectionOf(r.document, open.value);
        Current().document == Put(r.document, open.value,
            Put(section, key, ValuesOf(r.document, open.value, key) + [v]))
      ensures sections == old(sections) && View() == old(View()) && mark == old(mark)
    {
      hide Settled, Apart, Put, Find, Has, Get, Distinct, PutSection, ViewDocument, ViewSection;
      ghost var name := open.value;
      var c := curSection.value;
      var found := Get(DictAt(dicts, c), key);
      HasIsGet(DictAt(dicts, c), key);
      ValuesInView(curSections, dicts, lists, name, c, key);
      OwnIsRecent(curSections, dicts, owner, mark, next, name, c);
      if found.None? || ListAt(lists, found.value) == [] {
        assert ValuesOf(Current().document, name, key) + [v] == [v];
        ViewAfterNewList(curSections, dicts, lists, owner, mark, next, name, c, key, v);
        ApartAfterNewList(curSections, dicts, owner, mark, next, name, c, key);
        SettledAfterOwn(sections, dicts, lists, mark, c, Put(DictAt(dicts, c), key, next), next, [v]);
        lists := lists[next := [v]];
        dicts := dicts[c := Put(DictAt(dicts, c), key, next)];
        owner := owner[next := (name, key)];
        next := next + 1;
      } else {
        var r := found.value;
        ViewAfterAppend(curSections, dicts, lists, owner, mark, next, name, c, key, r, ListAt(lists, r) + [v]);
        SettledAfterOwn(sections, dicts, lists, mark, c, dicts[c], r, ListAt(lists, r) + [v]);
        assert dicts[c := dicts[c]] == dicts;
        lists := lists[r := ListAt(lists, r) + [v]];
      }
    }

    /** What the base parser does with the events of a source. */
    method Feed(events: seq<Event>)
      requires Valid()
      modifies this
      ensures Valid() && Current() == Run(old(Current()), events)
      ensures sections == old(sections) && View() == old(View()) && mark == old(mark)
    {
      hide Settled, Apart, Put, Find, Has, Get, Distinct, PutSection, ViewDocument, ViewSection;
      for i := 0 to |events|
        invariant Valid() && Current() == Run(old(Current()), events[..i])
        invariant sections == old(sections) && View() == old(View()) && mark == old(mark)
      {
        assert events[..i + 1][..i] == events[..i];
        match events[i]
        case NewSection(name) => NewSection(name);
        case Assignment(key, value) => Assignment(key, value);
      }
      assert events[..|events|] == events;
    }

    /** The keys of one section that was read replace or extend those of the result. */
    method StoreKeys(name: string, t: Ref, items: Dict<Ref>)
      requires Ready() && Get(sections, name) == Some(t) && forall k :: 0 <= k < |items| ==> items[k].value < next
      modifies `dicts
      ensures Ready() && View() == PutSection(old(View()), name, ViewSection(items, lists))
      ensures forall r :: r != t ==> DictAt(dicts, r) == old(DictAt(dicts, r))
    {
      hide Settled, Put, Find, Has, Get, Distinct, ViewDocument, PutSection;
      ghost var s := ViewSection(items, lists);
      ViewWellFormed(sections, dicts, lists, next);
      assert s[..0] == [];
      OpenAgain(sections, dicts, lists, name) by {
        HasIsGet(sections, name);
        SettledIsDistinct(sections, dicts, next);
      }
      for k := 0 to |items|
        invariant Ready() && View() == PutSection(old(View()), name, s[..k])
        invariant forall r :: r != t ==> DictAt(dicts, r) == old(DictAt(dicts, r))
      {
        StoreShared(sections, dicts, lists, next, name, t, items[k].key, items[k].value);
        StoreStep(old(View()), name, s, k);
        dicts := dicts[t := Put(DictAt(dicts, t), items[k].key, items[k].value)];
      }
      assert s[..|items|] == s;
    }

    method MergeOne(name: string, items: Dict<Ref>, ghost since: nat)
      requires Ready() && forall k :: 0 <= k < |items| ==> items[k].value < next
      requires since <= next && Away(sections, mark, since)
      modifies `dicts, `sections, `next
      ensures Ready() && View() == PutSection(old(View()), name, ViewSection(items, lists))
      ensures old(next) <= next && Away(sections, mark, since)
      ensures forall r :: mark <= r < since ==> DictAt(dicts, r) == old(DictAt(dicts, r))
    {
      hide Settled, Put, Find, Has, Get, Distinct, ViewDocument, PutSection, Away;
      HasIsGet(sections, name);
      if Get(sections, name).None? {
        ViewWellFormed(sections, dicts, lists, next);
        OpenedThenStored(View(), name, ViewSection(items, lists));
        NewResultSection(sections, dicts, lists, next, name);
        AwayAfterPut(sections, mark, since, name, next);
        dicts := dicts[next := []];
        sections := Put(sections, name, next);
        next := next + 1;
      }
      AwayAt(sections, mark, since, name, Get(sections, name).value);
      StoreKeys(name, Get(sections, name).value, items);
    }

    /** After a source was read, its sections are merged into the result one by one. */
    method MergeCurrent()
      requires Valid()
      modifies `dicts, `sections, `next
      ensures Ready() && View() == Merge(old(View()), old(Current().document))
    {
      hide Settled, Put, Find, Has, Get, Distinct, ViewDocument, PutSection, Away;
      ghost var d, since, d0 := Current().document, next, dicts;
      ViewLength(curSections, dicts, lists);
      SettledLater(sections, dicts, mark, next);
      SettledIsAway(sections, dicts, mark, since);
      assert d[..0] == [];
      for i := 0 to |curSections|
        invariant Ready() && View() == Merge(old(View()), d[..i])
        invariant since <= next && Away(sections, mark, since)
        invariant forall r :: mark <= r < since ==> DictAt(dicts, r) == DictAt(d0, r)
      {
        var name, items := curSections[i].key, DictAt(dicts, curSections[i].value);
        OwnLists(curSections, d0, owner, mark, since, i);
        MergeOne(name, items, since);
        assert d[..i + 1][..i] == d[..i];
      }
      assert d[..|curSections|] == d;
    }

    /**
     One more source: the result is the old result with this source merged into it, whatever the objects shared
     with earlier sources; a rejected source leaves the result as it was.
     */
    method Parse(lines: seq<Line>) returns (ok: bool)
      requires Ready()
      modifies this
      ensures Ready()
      ensures ok <==> ReadSource(lines).Some?
      ensures View() == if ok then Merge(old(View()), ReadSource(lines).value) else old(View())
    {
      hide Settled, ViewDocument;
      curSections, curSection, open, owner, mark := [], None, None, map[], next;
      NothingRead(dicts, lists, owner, mark, next);
      var reader := ReadFrom(AT_START, lines);
      Feed(Flushed(reader));
      ok := !reader.failed;
      SettledLater(sections, dicts, mark, next);
      if ok {
        MergeCurrent();
      }
    }

    // ---------------------------------------------------------------- writing

    method WriteValue(key: string, v: Value) returns (out: seq<Line>)
      ensures out == ValueLines(key, v, space)
    {
      out := [];
      if v == [] {
        out := [KeyValue(key, "")];
      }
      for index := 0 to |v|
        invariant v != [] ==>
                  out == if index == 0 then []
                         else [KeyValue(key, v[0])] + Continuations(|key| + space * 2 + 1, v[1..index])
        invariant v == [] ==> out == [KeyValue(key, "")]
      {
        if index == 0 {
          out := out + [KeyValue(key, v[0])];
        } else {
          out := out + [Indented(|key| + space * 2 + 1, v[index])];
          assert v[1..index + 1][..index - 1] == v[1..index];
        }
      }
      if v != [] {
        assert v[1..|v|] == v[1..];
      }
    }

    method WriteKey(key: string, vs: seq<Value>) returns (out: seq<Line>)
      ensures out == KeyLines(key, vs, space)
    {
      hide ValueLines;
      out := [];
      for i := 0 to |vs|
        invariant out == KeyLines(key, vs[..i], space)
      {
        var written := WriteValue(key, vs[i]);
        out := out + written;
        assert vs[..i + 1][..i] == vs[..i];
      }
      assert vs[..|vs|] == vs;
    }

    method WriteSection(items: Dict<Ref>) returns (out: seq<Line>)
      ensures out == SectionLines(ViewSection(items, lists), space)
    {
      hide KeyLines, ViewSection;
      SectionLength(items, lists);
      ghost var s := ViewSection(items, lists);
      out := [];
      for i := 0 to |items|
        invariant out == SectionLines(s[..i], space)
      {
        var written := WriteKey(items[i].key, ListAt(lists, items[i].value));
        out := out + written;
        assert s[..i + 1][..i] == s[..i];
      }
      assert s[..|items|] == s;
    }

    method WriteHeader(name: string) returns (out: seq<Line>)
      ensures out == HeaderLines(name)
    {
      out := [];
      if name != ORPHAN_SECTION {
        out := [Header(name)];
      }
    }

    method Write() returns (out: seq<Line>)
      ensures out == WriteLines(View(), space)
    {
      hide HeaderLines, SectionLines, ViewSection, ViewDocument;
      ghost var d := View();
      ViewLength(sections, dicts, lists);
      out := [];
      for i := 0 to |sections|
        invariant out == WriteLines(d[..i], space)
      {
        var header := WriteHeader(sections[i].key);
        var written := WriteSection(DictAt(dicts, sections[i].value));
        assert d[..i + 1][..i] == d[..i];
        out := out + (header + written + [Blank]);
      }
      assert d[..|sections|] == d;
    }
  }

  // ---------------------------------------------------------------- all sources

  /** The documents of the sources, or nothing where one of them is rejected. */
  function ReadSources(sources: seq<seq<Line>>): Option<seq<Document>> {
    if sources == [] then Some([])
    else
      var before, last := ReadSources(sources[..|sources| - 1]), ReadSource(sources[|sources| - 1]);
      if before.Some? && last.Some? then Some(before.value + [last.value]) else None
  }

  lemma {:induction false} ReadSourcesPrefix(sources: seq<seq<Line>>, n: nat)
    requires n <= |sources| && ReadSources(sources[..n]).None?
    ensures ReadSources(sources).None?
    decreases |sources| - n
  {
    if n < |sources| {
      assert sources[..n + 1][..n] == sources[..n];
      ReadSourcesPrefix(sources, n + 1);
    } else {
      assert sources[..n] == sources;
    }
  }

  lemma ReadOneMore(sources: seq<seq<Line>>, i: nat)
    requires i < |sources| && ReadSources(sources[..i]).Some?
    ensures ReadSource(sources[i]).None? ==> ReadSources(sources[..i + 1]).None?
    ensures ReadSource(sources[i]).Some? ==>
              && ReadSources(sources[..i + 1]).Some?
              && MergeAll(ReadSources(sources[..i + 1]).value) ==
                 Merge(MergeAll(ReadSources(sources[..i]).value), ReadSource(sources[i]).value)
  {
    hide ReadSource, Merge;
    assert sources[..i + 1][..i] == sources[..i];
    if ReadSource(sources[i]).Some? {
      var docs := ReadSources(sources[..i]).value;
      assert (docs + [ReadSource(sources[i]).value])[..|docs|] == docs;
    }
  }

  lemma NothingReadYet()
    ensures ReadSources([]) == Some([]) && MergeAll([]) == []
  {
  }

  /** The action: parse every readable source in order, then write the result. */
  method MergeSources(sources: seq<seq<Line>>, whitespace: bool) returns (out: Option<seq<Line>>)
    ensures out.Some? <==> ReadSources(sources).Some?
    ensures out.Some? ==>
              out.value == WriteLines(MergeAll(ReadSources(sources).value), if whitespace then 1 else 0)
  {
    hide WriteLines, Merge, MergeAll, ReadSource, ReadSources;
    var config := new OverrideConfigParser(whitespace);
    NothingReadYet();
    assert sources[..0] == [];
    for i := 0 to |sources|
      invariant config.Ready() && ReadSources(sources[..i]).Some?
      invariant config.View() == MergeAll(ReadSources(sources[..i]).value)
    {
      ReadOneMore(sources, i);
      var ok := config.Parse(sources[i]);
      if !ok {
        ReadSourcesPrefix(sources, i + 1);
        return None;
      }
    }
    assert sources[..|sources|] == sources;
    var lines := config.Write();
    out := Some(lines);
  }
}
