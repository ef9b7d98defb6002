/**
 From source lines to documents and back: how one source is read, and what the writer puts out.  The line reader
 follows the discipline of the base parser (oslo.config's iniparser): an assignment is held back until the next line
 that is not a continuation, and blank lines end it.
*/
module IniSource {
  import opened Common
  import opened OrderedDict
  import opened IniDocument

  /** Collects the assignments that precede any section header. */
  const ORPHAN_SECTION := "TEMPORARY_ORPHAN_VARIABLE_SECTION"

  // ---------------------------------------------------------------- parser events

  datatype Event = NewSection(name: string) | Assignment(key: string, value: Value)

  /** The sections of the source being read, and the section that assignments go to. */
  datatype Reading = Reading(document: Document, open: Option<string>)

  function Stored(value: Value): Value {
    if value == [""] then [] else value
  }

  function Open(r: Reading, name: string): Reading {
    Reading(PutSection(r.document, name, []), Some(name))
  }

  function Assign(r: Reading, key: string, value: Value): Reading
    decreases r.open.None?
  {
    if r.open.None? then Assign(Open(r, ORPHAN_SECTION), key, value)
    else
      var section := SectionOf(r.document, r.open.value);
      var values := if Get(section, key).Some? then Get(section, key).value else [];
      r.(document := Put(r.document, r.open.value, Put(section, key, values + [Stored(value)])))
  }

  function Handle(r: Reading, e: Event): Reading {
    match e
    case NewSection(name) => Open(r, name)
    case Assignment(key, value) => Assign(r, key, value)
  }

  function Run(r: Reading, events: seq<Event>): Reading
    decreases |events|
  {
    if events == [] then r else Handle(Run(r, events[..|events| - 1]), events[|events| - 1])
  }

  const START := Reading([], None)

  function ReadEvents(events: seq<Event>): Document {
    Run(START, events).document
  }

  // ---------------------------------------------------------------- what reading events means

  /** The section that an assignment at the end of these events goes to. */
  function OpenAfter(events: seq<Event>): string {
    if events == [] then ORPHAN_SECTION
    else match events[|events| - 1]
      case NewSection(name) => name
      case Assignment(_, _) => OpenAfter(events[..|events| - 1])
  }

  /** Everything these events assign to one key of one section, in order. */
  function Assigned(events: seq<Event>, name: string, key: string): seq<Value> {
    if events == [] then []
    else
      var before, last := events[..|events| - 1], events[|events| - 1];
      Assigned(before, name, key) +
      if last.Assignment? && last.key == key && OpenAfter(before) == name then [Stored(last.value)] else []
  }

  /** The sections these events name, the orphan section where an assignment comes before any header. */
  function Mentioned(events: seq<Event>): seq<string> {
    if events == [] then []
    else
      var before, last := events[..|events| - 1], events[|events| - 1];
      Mentioned(before) + [if last.NewSection? then last.name else OpenAfter(before)]
  }

  /** A document that reading can produce: every key has at least one value, and no value is one empty line. */
  ghost predicate Readable(d: Document) {
    && WellFormed(d)
    && forall i :: 0 <= i < |d| ==> ReadableSection(d[i].value)
  }

  ghost predicate ReadableSection(s: Section) {
    forall k :: 0 <= k < |s| ==> s[k].key != "" && s[k].value != [] && ReadableValues(s[k].value)
  }

  ghost predicate ReadableValues(vs: seq<Value>) {
    forall j :: 0 <= j < |vs| ==> ReadableValue(vs[j])
  }

  ghost predicate ReadableValue(v: Value) {
    v != [""] && forall i :: 1 <= i < |v| ==> v[i] != ""
  }

  ghost predicate ReadableEvents(events: seq<Event>) {
    forall i :: 0 <= i < |events| && events[i].Assignment? ==>
        events[i].key != "" && ReadableValue(Stored(events[i].value))
  }

  lemma OpenReadable(r: Reading, name: string)
    requires Readable(r.document)
    ensures Readable(Open(r, name).document) && Has(Open(r, name).document, name)
    ensures forall n :: SectionOf(Open(r, name).document, n) == SectionOf(r.document, n)
    ensures Keys(Open(r, name).document) ==
            if name in Keys(r.document) then Keys(r.document) else Keys(r.document) + [name]
  {
    PutSectionWellFormed(r.document, name, []);
    KeysAfterPut(r.document, name, SectionOf(r.document, name));
    FindFinds(r.document, name);
    GetPut(r.document, name, SectionOf(r.document, name), name);
    forall n
      ensures SectionOf(Open(r, name).document, n) == SectionOf(r.document, n)
    {
      SectionOfPut(r.document, name, [], n);
    }
  }

  lemma PutReadable(s: Section, key: string, values: seq<Value>)
    requires Distinct(s) && ReadableSection(s) && key != "" && values != [] && ReadableValues(values)
    ensures Distinct(Put(s, key, values)) && ReadableSection(Put(s, key, values))
  {
    PutKeepsDistinct(s, key, values);
    FindFinds(s, key);
  }

  function ValuesOf(d: Document, name: string, key: string): seq<Value> {
    if Lookup(d, name, key).Some? then Lookup(d, name, key).value else []
  }

  lemma LookupAfterPut(d: Document, name: string, key: string, values: seq<Value>, n: string, k: string)
    requires Distinct(d) && Has(d, name) && Distinct(SectionOf(d, name))
    ensures Lookup(Put(d, name, Put(SectionOf(d, name), key, values)), n, k) ==
            if n == name && k == key then Some(values) else Lookup(d, n, k)
  {
    hide Put, Get, Find, Distinct;
    GetPut(d, name, Put(SectionOf(d, name), key, values), n);
    GetPut(SectionOf(d, name), key, values, k);
    HasIsGet(d, name);
  }

  lemma AssignIsPut(r: Reading, key: string, value: Value, name: string)
    requires r.open == Some(name)
    ensures var values := ValuesOf(r.document, name, key) + [Stored(value)];
      Assign(r, key, value) == r.(document := Put(r.document, name, Put(SectionOf(r.document, name), key, values)))
  {
    hide Put, Get, SectionOf;
  }

  lemma ReadableParts(d: Document, name: string, key: string)
    requires Readable(d)
    ensures Distinct(d) && Distinct(SectionOf(d, name)) && ReadableSection(SectionOf(d, name))
    ensures ReadableValues(ValuesOf(d, name, key))
  {
    FindFinds(d, name);
    FindFinds(SectionOf(d, name), key);
  }

  lemma PutSectionReadable(d: Document, name: string, s: Section)
    requires Readable(d) && Distinct(s) && ReadableSection(s)
    ensures Readable(Put(d, name, s))
  {
    hide ReadableSection;
    FindFinds(d, name);
    PutKeepsDistinct(d, name, s);
  }

  lemma {:induction false} AssignReadable(r: Reading, key: string, value: Value, name: string)
    requires Readable(r.document) && key != "" && ReadableValue(Stored(value))
    requires r.open == Some(name) && Has(r.document, name)
    ensures Readable(Assign(r, key, value).document) && Assign(r, key, value).open == r.open
    ensures Keys(Assign(r, key, value).document) == Keys(r.document)
    ensures forall n, k :: Lookup(Assign(r, key, value).document, n, k) == (
              if n == name && k == key then Some(ValuesOf(r.document, n, k) + [Stored(value)])
              else Lookup(r.document, n, k))
  {
    hide Readable, ReadableSection, Assign, Put, Get, SectionOf, Lookup, ValuesOf, Find, Distinct;
    var section, values := SectionOf(r.document, name), ValuesOf(r.document, name, key) + [Stored(value)];
    AssignIsPut(r, key, value, name);
    ReadableParts(r.document, name, key);
    PutReadable(section, key, values);
    PutKeepsDistinct(section, key, values);
    PutSectionReadable(r.document, name, Put(section, key, values));
    KeysAfterPut(r.document, name, Put(section, key, values));
    HasKey(r.document, name);
    forall n, k
      ensures Lookup(Put(r.document, name, Put(section, key, values)), n, k) ==
        if n == name && k == key then Some(values) else Lookup(r.document, n, k)
    {
      LookupAfterPut(r.document, name, key, values, n, k);
    }
  }

  /** What a run of events leaves open is what the events say. */
  ghost predicate Tracks(r: Reading, events: seq<Event>) {
    && Readable(r.document)
    && r.open == (if events == [] then None else Some(OpenAfter(events)))
    && (r.open.Some? ==> Has(r.document, r.open.value))
    && Keys(r.document) == FirstAppearances(Mentioned(events))
  }

  lemma {:induction false} RunTracks(events: seq<Event>)
    requires ReadableEvents(events)
    ensures Tracks(Run(START, events), events)
  {
    hide Lookup, Put, PutSection, MergeSection, Find, Get, SectionOf;
    if events != [] {
      var before, last := events[..|events| - 1], events[|events| - 1];
      assert last == events[|events| - 1];
      RunTracks(before);
      var r := Run(START, before);
      match last
      case NewSection(name) =>
        OpenReadable(r, name);
        FirstAppearancesSnoc(Mentioned(before), name);
      case Assignment(key, value) =>
        var name := OpenAfter(before);
        FirstAppearancesSnoc(Mentioned(before), name);
        if r.open.None? {
          OpenReadable(r, ORPHAN_SECTION);
          AssignReadable(Open(r, ORPHAN_SECTION), key, value, ORPHAN_SECTION);
        } else {
          HasKey(r.document, name);
          AssignReadable(r, key, value, name);
        }
        HasAfterAssign(r, key, value);
    }
  }

  lemma HasKey<V>(d: Dict<V>, key: string)
    ensures Has(d, key) <==> key in Keys(d)
  {
    FindFinds(d, key);
    KeysAt(d);
  }

  lemma HasAfterAssign(r: Reading, key: string, value: Value)
    requires r.open.Some? ==> Has(r.document, r.open.value)
    ensures Assign(r, key, value).open.Some? && Has(Assign(r, key, value).document, Assign(r, key, value).open.value)
  {
    var r1 := if r.open.None? then Open(r, ORPHAN_SECTION) else r;
    var name := r1.open.value;
    var section := SectionOf(r1.document, name);
    var values := if Get(section, key).Some? then Get(section, key).value else [];
    var section' := Put(section, key, values + [Stored(value)]);
    KeysAfterPut(r1.document, name, section');
    HasKey(Put(r1.document, name, section'), name);
  }

  /** A key of a section holds exactly the assignments made to it there, in order. */
  lemma {:induction false} LookupIsAssigned(events: seq<Event>, name: string, key: string)
    requires ReadableEvents(events)
    ensures Lookup(ReadEvents(events), name, key) ==
      if Assigned(events, name, key) == [] then None else Some(Assigned(events, name, key))
  {
    hide Put, PutSection, MergeSection, Find, Get, SectionOf, Keys, FirstAppearances, Mentioned;
    if events == [] {
      EmptyLookup(name, key);
    } else {
      var before, last := events[..|events| - 1], events[|events| - 1];
      assert last == events[|events| - 1];
      LookupIsAssigned(before, name, key);
      RunTracks(before);
      assert Assigned(before, name, key) + [] == Assigned(before, name, key);
      var r := Run(START, before);
      match last
      case NewSection(header) =>
        OpenReadable(r, header);
        assert Lookup(Open(r, header).document, name, key) == Lookup(r.document, name, key);
      case Assignment(k, value) =>
        if r.open.None? {
          OpenReadable(r, ORPHAN_SECTION);
          AssignReadable(Open(r, ORPHAN_SECTION), k, value, ORPHAN_SECTION);
        } else {
          AssignReadable(r, k, value, r.open.value);
        }
    }
  }

  lemma EmptyLookup(name: string, key: string)
    ensures Lookup([], name, key).None?
  {
  }
}
