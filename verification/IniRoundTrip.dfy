/** Logical lines: how a source becomes parser events, what the writer puts out, and when the two undo each other. */
module IniRoundTrip {
  import opened Common
  import opened OrderedDict
  import opened IniDocument
  import opened IniSource

  // ---------------------------------------------------------------- reading lines

  /** A line after trimming on the right; an indented line keeps the width of its indentation apart. */
  datatype Line =
    | Header(name: string)
    | KeyValue(key: string, first: string)
    | Indented(width: nat, text: string)
    | Blank
    | Comment
    | Malformed

  /** The assignment being collected, the events handed on so far, and whether the source was rejected. */
  datatype Reader = Reader(events: seq<Event>, pending: Option<(string, Value)>, failed: bool)

  const AT_START := Reader([], None, false)

  /** The events once the pending assignment, if any, is handed on. */
  function Flushed(r: Reader): seq<Event> {
    if r.pending.Some? then r.events + [Assignment(r.pending.value.0, r.pending.value.1)] else r.events
  }

  function ReadLine(r: Reader, line: Line): Reader {
    if r.failed then r
    else match line
      case Header(name) => Reader(Flushed(r) + [NewSection(name)], None, false)
      case KeyValue(key, first) =>
        if key == "" then Reader(Flushed(r), None, true) else Reader(Flushed(r), Some((key, [first])), false)
      case Indented(width, text) =>
        if text == "" then Reader(Flushed(r), None, false)
        else if width == 0 || r.pending.None? then Reader(Flushed(r), None, true)
        else r.(pending := Some((r.pending.value.0, r.pending.value.1 + [text])))
      case Blank => Reader(Flushed(r), None, false)
      case Comment => Reader(Flushed(r), None, false)
      case Malformed => Reader(Flushed(r), None, true)
  }

  function ReadFrom(r: Reader, lines: seq<Line>): Reader
    decreases |lines|
  {
    if lines == [] then r else ReadLine(ReadFrom(r, lines[..|lines| - 1]), lines[|lines| - 1])
  }

  /** One source: the document it stands for, or nothing where the reader rejects it. */
  function ReadSource(lines: seq<Line>): Option<Document> {
    var r := ReadFrom(AT_START, lines);
    if r.failed then None else Some(ReadEvents(Flushed(r)))
  }

  lemma {:induction false} ReadAppend(r: Reader, a: seq<Line>, b: seq<Line>)
    ensures ReadFrom(r, a + b) == ReadFrom(ReadFrom(r, a), b)
  {
    if b == [] {
      assert a + [] == a;
    } else {
      ReadAppend(r, a, b[..|b| - 1]);
      assert (a + b)[..|a + b| - 1] == a + b[..|b| - 1];
    }
  }

  ghost predicate Collected(v: Value) {
    v != [] && forall i :: 1 <= i < |v| ==> v[i] != ""
  }

  ghost predicate ReadableReader(r: Reader) {
    && ReadableEvents(r.events)
    && (r.pending.Some? ==> r.pending.value.0 != "" && Collected(r.pending.value.1))
  }

  /** Whatever the lines, the parser is handed only assignments with a key and without empty continuations. */
  lemma {:induction false} ReadingIsReadable(lines: seq<Line>)
    ensures ReadableReader(ReadFrom(AT_START, lines)) && ReadableEvents(Flushed(ReadFrom(AT_START, lines)))
  {
    if lines != [] {
      ReadingIsReadable(lines[..|lines| - 1]);
    }
  }

  /** So every source that is not rejected gives a document of the shape the writer expects. */
  lemma SourcesAreReadable(lines: seq<Line>)
    requires ReadSource(lines).Some?
    ensures Readable(ReadSource(lines).value)
  {
    ReadingIsReadable(lines);
    RunTracks(Flushed(ReadFrom(AT_START, lines)));
  }

  // ---------------------------------------------------------------- writing

  /** Continuation lines stand under the first line of their value. */
  function Continuations(width: nat, texts: seq<string>): seq<Line> {
    if texts == [] then [] else Continuations(width, texts[..|texts| - 1]) + [Indented(width, texts[|texts| - 1])]
  }

  /** `space` is the width of the padding on either side of the equals sign: one, or none. */
  function ValueLines(key: string, v: Value, space: nat): seq<Line> {
    if v == [] then [KeyValue(key, "")]
    else [KeyValue(key, v[0])] + Continuations(|key| + space * 2 + 1, v[1..])
  }

  function KeyLines(key: string, vs: seq<Value>, space: nat): seq<Line> {
    if vs == [] then [] else KeyLines(key, vs[..|vs| - 1], space) + ValueLines(key, vs[|vs| - 1], space)
  }

  function SectionLines(s: Section, space: nat): seq<Line> {
    if s == [] then [] else SectionLines(s[..|s| - 1], space) + KeyLines(s[|s| - 1].key, s[|s| - 1].value, space)
  }

  function HeaderLines(name: string): seq<Line> {
    if name == ORPHAN_SECTION then [] else [Header(name)]
  }

  function WriteLines(d: Document, space: nat): seq<Line> {
    if d == [] then []
    else
      var last := d[|d| - 1];
      WriteLines(d[..|d| - 1], space) + (HeaderLines(last.key) + SectionLines(last.value, space) + [Blank])
  }

  // ---------------------------------------------------------------- the events of written lines

  function Raw(v: Value): Value {
    if v == [] then [""] else v
  }

  function KeyEvents(key: string, vs: seq<Value>): seq<Event> {
    if vs == [] then [] else KeyEvents(key, vs[..|vs| - 1]) + [Assignment(key, Raw(vs[|vs| - 1]))]
  }

  function SectionEvents(s: Section): seq<Event> {
    if s == [] then [] else SectionEvents(s[..|s| - 1]) + KeyEvents(s[|s| - 1].key, s[|s| - 1].value)
  }

  function HeaderEvents(name: string): seq<Event> {
    if name == ORPHAN_SECTION then [] else [NewSection(name)]
  }

  function DocumentEvents(d: Document): seq<Event> {
    if d == [] then []
    else DocumentEvents(d[..|d| - 1]) + (HeaderEvents(d[|d| - 1].key) + SectionEvents(d[|d| - 1].value))
  }

  /** Continuations always have at least one leading space, so they join the pending value. */
  lemma {:induction false} ReadContinuations(r: Reader, width: nat, texts: seq<string>)
    requires !r.failed && r.pending.Some? && width > 0
    requires forall i :: 0 <= i < |texts| ==> texts[i] != ""
    ensures ReadFrom(r, Continuations(width, texts)) ==
            r.(pending := Some((r.pending.value.0, r.pending.value.1 + texts)))
  {
    if texts == [] {
      assert r.pending.value.1 + [] == r.pending.value.1;
    } else {
      var before, last := texts[..|texts| - 1], texts[|texts| - 1];
      ReadContinuations(r, width, before);
      var lines := Continuations(width, before);
      assert (lines + [Indented(width, last)])[..|lines|] == lines;
      assert r.pending.value.1 + before + [last] == r.pending.value.1 + texts;
    }
  }

  lemma ReadOne(r: Reader, line: Line)
    ensures ReadFrom(r, [line]) == ReadLine(r, line)
  {
    assert [line][..0] == [];
  }

  lemma ReadValue(r: Reader, key: string, v: Value, space: nat)
    requires !r.failed && key != "" && ReadableValue(v)
    ensures ReadFrom(r, ValueLines(key, v, space)) == Reader(Flushed(r), Some((key, Raw(v))), false)
  {
    hide ReadFrom, Continuations;
    ReadOne(r, KeyValue(key, ""));
    if v != [] {
      var r' := ReadLine(r, KeyValue(key, v[0]));
      ReadOne(r, KeyValue(key, v[0]));
      ReadAppend(r, [KeyValue(key, v[0])], Continuations(|key| + space * 2 + 1, v[1..]));
      ReadContinuations(r', |key| + space * 2 + 1, v[1..]);
      assert [v[0]] + v[1..] == v;
    }
  }

  lemma {:induction false} ReadKey(r: Reader, key: string, vs: seq<Value>, space: nat)
    requires !r.failed && key != "" && ReadableValues(vs)
    ensures var r' := ReadFrom(r, KeyLines(key, vs, space));
      !r'.failed && Flushed(r') == Flushed(r) + KeyEvents(key, vs)
  {
    if vs != [] {
      hide ReadFrom, ReadLine, ValueLines;
      var before, last := vs[..|vs| - 1], vs[|vs| - 1];
      assert last == vs[|vs| - 1];
      ReadKey(r, key, before, space);
      ReadAppend(r, KeyLines(key, before, space), ValueLines(key, last, space));
      ReadValue(ReadFrom(r, KeyLines(key, before, space)), key, last, space);
    }
  }

  lemma {:induction false} ReadSection(r: Reader, s: Section, space: nat)
    requires !r.failed && ReadableSection(s)
    ensures var r' := ReadFrom(r, SectionLines(s, space)); !r'.failed && Flushed(r') == Flushed(r) + SectionEvents(s)
  {
    if s != [] {
      hide ReadFrom, ReadLine, Flushed, KeyLines, KeyEvents;
      var before, last := s[..|s| - 1], s[|s| - 1];
      assert last == s[|s| - 1];
      ReadSection(r, before, space);
      ReadAppend(r, SectionLines(before, space), KeyLines(last.key, last.value, space));
      ReadKey(ReadFrom(r, SectionLines(before, space)), last.key, last.value, space);
    }
  }

  lemma ReadHeader(r: Reader, name: string)
    requires !r.failed
    ensures var r' := ReadFrom(r, HeaderLines(name)); !r'.failed && Flushed(r') == Flushed(r) + HeaderEvents(name)
  {
    ReadOne(r, Header(name));
  }

  lemma ReadBlank(r: Reader)
    requires !r.failed
    ensures var r' := ReadFrom(r, [Blank]); !r'.failed && Flushed(r') == Flushed(r)
  {
    ReadOne(r, Blank);
  }

  lemma ReadItem(r: Reader, name: string, s: Section, space: nat)
    requires !r.failed && ReadableSection(s)
    ensures var r' := ReadFrom(r, HeaderLines(name) + SectionLines(s, space) + [Blank]);
      !r'.failed && Flushed(r') == Flushed(r) + (HeaderEvents(name) + SectionEvents(s))
  {
    hide HeaderLines, SectionLines, HeaderEvents, SectionEvents, ReadFrom, ReadLine, Flushed;
    var r1 := ReadFrom(r, HeaderLines(name));
    ReadHeader(r, name);
    ReadAppend(r, HeaderLines(name), SectionLines(s, space));
    ReadSection(r1, s, space);
    ReadAppend(r, HeaderLines(name) + SectionLines(s, space), [Blank]);
    ReadBlank(ReadFrom(r1, SectionLines(s, space)));
  }

  /** Written lines are never rejected, and they stand for exactly the assignments of the document. */
  lemma {:induction false} WrittenEvents(d: Document, space: nat)
    requires Readable(d)
    ensures var r := ReadFrom(AT_START, WriteLines(d, space)); !r.failed && Flushed(r) == DocumentEvents(d)
  {
    hide HeaderLines, SectionLines, HeaderEvents, SectionEvents;
    if d != [] {
      var before, last := d[..|d| - 1], d[|d| - 1];
      assert last == d[|d| - 1];
      WrittenEvents(before, space);
      ReadAppend(AT_START, WriteLines(before, space),
                 HeaderLines(last.key) + SectionLines(last.value, space) + [Blank]);
      ReadItem(ReadFrom(AT_START, WriteLines(before, space)), last.key, last.value, space);
    }
  }

  // ---------------------------------------------------------------- replaying the events of a document

  lemma {:induction false} RunAppend(r: Reading, a: seq<Event>, b: seq<Event>)
    ensures Run(r, a + b) == Run(Run(r, a), b)
  {
    if b == [] {
      assert a + [] == a;
    } else {
      RunAppend(r, a, b[..|b| - 1]);
      assert (a + b)[..|a + b| - 1] == a + b[..|b| - 1];
    }
  }

  lemma RunOne(r: Reading, e: Event)
    ensures Run(r, [e]) == Handle(r, e)
  {
    assert [e][..0] == [];
  }

  /** Assigning one more value to the last section of a document. */
  lemma AssignInLast(d: Document, name: string, s: Section, key: string, v: Value)
    ensures Assign(Reading(d + [Item(name, s)], Some(name)), key, Raw(v)) ==
      Reading(d + [Item(name, Put(s, key, (if Get(s, key).Some? then Get(s, key).value else []) + [Stored(Raw(v))]))],
          Some(name))
  {
    FindSnoc(d, Item(name, s), name);
    GetSnoc(d, Item(name, s), name);
  }

  /** A section that has collected the values of a new key so far. */
  function WithKey(s: Section, key: string, vs: seq<Value>): Section {
    if vs == [] then s else s + [Item(key, vs)]
  }

  lemma ValuesWithKey(s: Section, key: string, vs: seq<Value>)
    requires !Has(s, key)
    ensures (if Get(WithKey(s, key, vs), key).Some? then Get(WithKey(s, key, vs), key).value else []) == vs
  {
    hide Find;
    FindSnoc(s, Item(key, vs), key);
    GetSnoc(s, Item(key, vs), key);
    HasIsGet(s, key);
  }

  lemma PutWithKey(s: Section, key: string, vs: seq<Value>, v: Value)
    requires !Has(s, key)
    ensures Put(WithKey(s, key, vs), key, vs + [v]) == WithKey(s, key, vs + [v])
  {
    hide Find;
    FindSnoc(s, Item(key, vs), key);
  }

  /** One more value for the key that is being collected. */
  lemma {:induction false} ReplayValue(d: Document, name: string, s: Section, key: string, vs: seq<Value>, v: Value)
    requires !Has(s, key) && v != [""]
    ensures Assign(Reading(d + [Item(name, WithKey(s, key, vs))], Some(name)), key, Raw(v)) ==
            Reading(d + [Item(name, WithKey(s, key, vs + [v]))], Some(name))
  {
    hide Has, Get, Put, Find, WithKey, Assign;
    AssignInLast(d, name, WithKey(s, key, vs), key, v);
    ValuesWithKey(s, key, vs);
    PutWithKey(s, key, vs, v);
    assert Stored(Raw(v)) == v;
  }

  lemma {:induction false} ReplayKey(d: Document, name: string, s: Section, key: string, vs: seq<Value>)
    requires !Has(s, key) && ReadableValues(vs)
    ensures Run(Reading(d + [Item(name, s)], Some(name)), KeyEvents(key, vs)) ==
            Reading(d + [Item(name, WithKey(s, key, vs))], Some(name))
  {
    if vs != [] {
      hide Run, Has, WithKey, Assign;
      var before, last := vs[..|vs| - 1], vs[|vs| - 1];
      assert before + [last] == vs;
      ReplayKey(d, name, s, key, before);
      RunAppend(Reading(d + [Item(name, s)], Some(name)), KeyEvents(key, before), [Assignment(key, Raw(last))]);
      RunOne(Reading(d + [Item(name, WithKey(s, key, before))], Some(name)), Assignment(key, Raw(last)));
      ReplayValue(d, name, s, key, before, last);
    }
  }

  lemma {:induction false} ReplaySection(d: Document, name: string, s: Section)
    requires Distinct(s) && ReadableSection(s)
    ensures Run(Reading(d + [Item(name, [])], Some(name)), SectionEvents(s)) == Reading(d + [Item(name, s)], Some(name))
  {
    if s != [] {
      hide Run, Put, Get;
      var before, last := s[..|s| - 1], s[|s| - 1];
      assert last == s[|s| - 1] && Distinct(before) && before + [last] == s;
      ReplaySection(d, name, before);
      RunAppend(Reading(d + [Item(name, [])], Some(name)), SectionEvents(before), KeyEvents(last.key, last.value));
      FindFinds(before, last.key);
      ReplayKey(d, name, before, last.key, last.value);
    }
  }

  /** Events that begin with an assignment open the orphan section by themselves. */
  lemma {:induction false} OrphanOpensItself(events: seq<Event>)
    requires events != [] && events[0].Assignment?
    ensures Run(START, events) == Run(Reading([Item(ORPHAN_SECTION, [])], Some(ORPHAN_SECTION)), events)
  {
    if |events| > 1 {
      OrphanOpensItself(events[..|events| - 1]);
    } else {
      assert events == [events[0]];
      RunOne(START, events[0]);
      RunOne(Reading([Item(ORPHAN_SECTION, [])], Some(ORPHAN_SECTION)), events[0]);
      assert Open(START, ORPHAN_SECTION) == Reading([Item(ORPHAN_SECTION, [])], Some(ORPHAN_SECTION));
    }
  }

  /** The orphan section, if there is one, comes first and assigns something. */
  predicate OrphanLeads(d: Document) {
    forall i :: 0 <= i < |d| && d[i].key == ORPHAN_SECTION ==> i == 0 && d[i].value != []
  }

  lemma {:induction false} SectionStartsWithAssignment(s: Section)
    requires ReadableSection(s)
    ensures s == [] ==> SectionEvents(s) == []
    ensures s != [] ==> SectionEvents(s) != [] && SectionEvents(s)[0].Assignment?
  {
    if s != [] {
      SectionStartsWithAssignment(s[..|s| - 1]);
      assert s[|s| - 1].value != [];
      KeyStartsWithAssignment(s[|s| - 1].key, s[|s| - 1].value);
    }
  }

  lemma {:induction false} KeyStartsWithAssignment(key: string, vs: seq<Value>)
    requires vs != []
    ensures KeyEvents(key, vs) != [] && KeyEvents(key, vs)[0].Assignment?
  {
    if |vs| > 1 {
      KeyStartsWithAssignment(key, vs[..|vs| - 1]);
    }
  }

  lemma ReplayOrphan(s: Section)
    requires Distinct(s) && ReadableSection(s) && s != []
    ensures Run(START, SectionEvents(s)) == Reading([Item(ORPHAN_SECTION, s)], Some(ORPHAN_SECTION))
  {
    hide Run, SectionEvents, Put, PutSection;
    SectionStartsWithAssignment(s);
    OrphanOpensItself(SectionEvents(s));
    var none: Document := [];
    ReplaySection(none, ORPHAN_SECTION, s);
    assert none + [Item(ORPHAN_SECTION, [])] == [Item(ORPHAN_SECTION, [])];
    assert none + [Item(ORPHAN_SECTION, s)] == [Item(ORPHAN_SECTION, s)];
  }

  lemma ReplayNext(r: Reading, events: seq<Event>, name: string, s: Section)
    requires Run(START, events) == r && Distinct(s) && ReadableSection(s)
    requires forall i :: 0 <= i < |r.document| ==> r.document[i].key != name
    ensures Run(START, events + [NewSection(name)] + SectionEvents(s)) ==
            Reading(r.document + [Item(name, s)], Some(name))
  {
    hide Run, SectionEvents, Put, PutSection, Open;
    RunAppend(START, events + [NewSection(name)], SectionEvents(s));
    RunAppend(START, events, [NewSection(name)]);
    RunOne(r, NewSection(name));
    OpenNew(r, name);
    ReplaySection(r.document, name, s);
  }

  lemma ReadableSplit(d: Document)
    requires Readable(d) && d != []
    ensures var before, last := d[..|d| - 1], d[|d| - 1];
      && Readable(before) && Distinct(last.value) && ReadableSection(last.value)
      && forall i :: 0 <= i < |before| ==> before[i].key != last.key
  {
    assert d[|d| - 1].key == d[|d| - 1].key;
  }

  /** The events of a document whose last section has a header. */
  lemma {:induction false} EventsOfHeaded(d: Document)
    requires d != [] && d[|d| - 1].key != ORPHAN_SECTION
    ensures var last := d[|d| - 1];
            DocumentEvents(d) == DocumentEvents(d[..|d| - 1]) + [NewSection(last.key)] + SectionEvents(last.value)
  {
    hide SectionEvents;
    var before, last := DocumentEvents(d[..|d| - 1]), d[|d| - 1];
    assert before + ([NewSection(last.key)] + SectionEvents(last.value)) ==
           before + [NewSection(last.key)] + SectionEvents(last.value);
  }

  lemma {:induction false} EventsOfOrphan(s: Section)
    ensures DocumentEvents([Item(ORPHAN_SECTION, s)]) == SectionEvents(s)
  {
    hide SectionEvents;
    var d := [Item(ORPHAN_SECTION, s)];
    assert d[..0] == [];
    assert DocumentEvents(d) == [] + ([] + SectionEvents(s));
  }

  lemma {:induction false} Replay(d: Document)
    requires Readable(d) && OrphanLeads(d)
    ensures Run(START, DocumentEvents(d)) == Reading(d, if d == [] then None else Some(d[|d| - 1].key))
  {
    if d != [] {
      hide Run, DocumentEvents, SectionEvents, Put, PutSection, Readable, WellFormed, Distinct, ReadableSection;
      var before, last := d[..|d| - 1], d[|d| - 1];
      assert before + [last] == d;
      ReadableSplit(d);
      if last.key == ORPHAN_SECTION {
        assert d == [Item(ORPHAN_SECTION, last.value)];
        EventsOfOrphan(last.value);
        ReplayOrphan(last.value);
      } else {
        Replay(before);
        EventsOfHeaded(d);
        ReplayNext(Run(START, DocumentEvents(before)), DocumentEvents(before), last.key, last.value);
      }
    }
  }

  lemma OpenNew(r: Reading, name: string)
    requires forall i :: 0 <= i < |r.document| ==> r.document[i].key != name
    ensures Open(r, name) == Reading(r.document + [Item(name, [])], Some(name))
  {
    FindFinds(r.document, name);
  }

  // ---------------------------------------------------------------- when the orphan section is lost

  /** No header names the orphan section, and a header comes before any assignment. */
  ghost predicate OrphanFree(events: seq<Event>) {
    && (events != [] ==> events[0].NewSection?)
    && forall i :: 0 <= i < |events| && events[i].NewSection? ==> events[i].name != ORPHAN_SECTION
  }

  lemma {:induction false} OpenAfterIsNamed(events: seq<Event>)
    requires OrphanFree(events) && events != []
    ensures OpenAfter(events) != ORPHAN_SECTION
  {
    if events[|events| - 1].Assignment? {
      OpenAfterIsNamed(events[..|events| - 1]);
    }
  }

  lemma {:induction false} OrphanFreeMentions(events: seq<Event>)
    requires OrphanFree(events)
    ensures ORPHAN_SECTION !in Mentioned(events)
  {
    if events != [] {
      OrphanFreeMentions(events[..|events| - 1]);
      if |events| > 1 {
        OpenAfterIsNamed(events[..|events| - 1]);
      }
    }
  }

  lemma {:induction false} FirstAppearancesFrom(names: seq<string>, name: string)
    requires name in FirstAppearances(names)
    ensures name in names
  {
    if name in FirstAppearances(names[..|names| - 1]) {
      FirstAppearancesFrom(names[..|names| - 1], name);
    }
  }

  lemma {:induction false} KeyEventsAssign(key: string, vs: seq<Value>)
    ensures forall i :: 0 <= i < |KeyEvents(key, vs)| ==> KeyEvents(key, vs)[i].Assignment?
  {
    if vs != [] {
      KeyEventsAssign(key, vs[..|vs| - 1]);
    }
  }

  lemma {:induction false} SectionEventsAssign(s: Section)
    ensures forall i :: 0 <= i < |SectionEvents(s)| ==> SectionEvents(s)[i].Assignment?
  {
    if s != [] {
      SectionEventsAssign(s[..|s| - 1]);
      KeyEventsAssign(s[|s| - 1].key, s[|s| - 1].value);
    }
  }

  lemma OrphanFreeAppend(a: seq<Event>, b: seq<Event>)
    requires OrphanFree(a) && (a == [] && b != [] ==> b[0].NewSection?)
    requires forall i :: 0 <= i < |b| && b[i].NewSection? ==> b[i].name != ORPHAN_SECTION
    ensures OrphanFree(a + b)
  {
  }

  lemma ItemEvents(name: string, s: Section)
    ensures var events := HeaderEvents(name) + SectionEvents(s);
      && (forall i :: 0 <= i < |events| && events[i].NewSection? ==> events[i].name != ORPHAN_SECTION)
      && (name != ORPHAN_SECTION ==> events != [] && events[0].NewSection?)
      && (name == ORPHAN_SECTION && s == [] ==> events == [])
  {
    SectionEventsAssign(s);
  }

  /** Where the orphan section does not lead, its keys are written under another header, or nothing of it is. */
  lemma {:induction false} MisplacedOrphanIsLost(d: Document)
    requires Readable(d) && (d != [] && d[0].key == ORPHAN_SECTION ==> d[0].value == [])
    ensures OrphanFree(DocumentEvents(d))
  {
    if d != [] {
      hide SectionEvents, HeaderEvents, OrphanFree, Readable, WellFormed, Distinct, ReadableSection;
      var before, last := d[..|d| - 1], d[|d| - 1];
      ReadableSplit(d);
      MisplacedOrphanIsLost(before);
      ItemEvents(last.key, last.value);
      if last.key == ORPHAN_SECTION && |d| > 1 {
        assert before[0].key != last.key;
        EventsAfterHeader(before);
      }
      var events := HeaderEvents(last.key) + SectionEvents(last.value);
      OrphanFreeAppend(DocumentEvents(before), events);
    } else {
      assert DocumentEvents(d) == [];
    }
  }

  lemma {:induction false} EventsAfterHeader(d: Document)
    requires d != [] && d[0].key != ORPHAN_SECTION
    ensures DocumentEvents(d) != []
  {
    if |d| > 1 {
      EventsAfterHeader(d[..|d| - 1]);
    }
  }

  // ---------------------------------------------------------------- the round trip

  /**
   Reading back what was written gives the same sections, keys, repeated values and order exactly when the orphan
   section, if there is one, comes first and assigns something; the padding makes no difference.
   */
  lemma RoundTripExactly(d: Document, space: nat)
    requires Readable(d)
    ensures ReadSource(WriteLines(d, space)) == Some(d) <==> OrphanLeads(d)
    ensures ReadSource(WriteLines(d, space)).Some?
  {
    hide ReadFrom, WriteLines, DocumentEvents, Run;
    WrittenEvents(d, space);
    if OrphanLeads(d) {
      Replay(d);
    } else {
      OrphanIsMissing(d);
    }
  }

  lemma OrphanIsMissing(d: Document)
    requires Readable(d) && !OrphanLeads(d)
    ensures ReadEvents(DocumentEvents(d)) != d
  {
    hide DocumentEvents, Run, Mentioned, FirstAppearances;
    var events := DocumentEvents(d);
    var i :| 0 <= i < |d| && d[i].key == ORPHAN_SECTION && !(i == 0 && d[i].value != []);
    MisplacedOrphanIsLost(d);
    OrphanFreeMentions(events);
    ReadableDocumentEvents(d);
    RunTracks(events);
    KeysAt(d);
    assert Keys(d)[i] == ORPHAN_SECTION;
    if ORPHAN_SECTION in FirstAppearances(Mentioned(events)) {
      FirstAppearancesFrom(Mentioned(events), ORPHAN_SECTION);
    }
  }

  lemma ReadableDocumentEvents(d: Document)
    requires Readable(d)
    ensures ReadableEvents(DocumentEvents(d))
  {
    WrittenEvents(d, 1);
    ReadingIsReadable(WriteLines(d, 1));
  }

  // ---------------------------------------------------------------- sources, merged and written

  ghost predicate AllReadable(sources: seq<Document>) {
    forall i :: 0 <= i < |sources| ==> Readable(sources[i])
  }

  lemma {:induction false} MergeSectionReadable(a: Section, b: Section)
    requires Distinct(a) && ReadableSection(a) && ReadableSection(b)
    ensures ReadableSection(MergeSection(a, b))
  {
    if b != [] {
      var before, last := b[..|b| - 1], b[|b| - 1];
      assert last == b[|b| - 1];
      MergeSectionReadable(a, before);
      MergeSectionDistinct(a, before);
      PutReadable(MergeSection(a, before), last.key, last.value);
    }
  }

  lemma {:induction false} MergeReadable(a: Document, b: Document)
    requires Readable(a) && Readable(b)
    ensures Readable(Merge(a, b))
  {
    MergeWellFormed(a, b);
    if b != [] {
      hide MergeSection, Get;
      var before, last := b[..|b| - 1], b[|b| - 1];
      assert last == b[|b| - 1] && Readable(before);
      MergeReadable(a, before);
      var m := Merge(a, before);
      FindFinds(m, last.key);
      SectionOfReadable(m, last.key);
      MergeSectionReadable(SectionOf(m, last.key), last.value);
    }
  }

  lemma SectionOfReadable(d: Document, name: string)
    requires Readable(d)
    ensures Distinct(SectionOf(d, name)) && ReadableSection(SectionOf(d, name))
  {
    FindFinds(d, name);
  }

  lemma {:induction false} MergeAllReadable(sources: seq<Document>)
    requires AllReadable(sources)
    ensures Readable(MergeAll(sources))
  {
    if sources != [] {
      MergeAllReadable(sources[..|sources| - 1]);
      MergeReadable(MergeAll(sources[..|sources| - 1]), sources[|sources| - 1]);
    }
  }

  /**
   For every list of sources: the written result reads back as the merged document exactly when the orphan section,
   if anyone mentions it, is mentioned before all others and some source assigns a key there.
   */
  lemma {:induction false} MergedSourcesReadBack(sources: seq<Document>, space: nat)
    requires AllReadable(sources)
    ensures ReadSource(WriteLines(MergeAll(sources), space)) == Some(MergeAll(sources)) <==>
      (ORPHAN_SECTION in AllNames(sources) ==>
          AllNames(sources)[0] == ORPHAN_SECTION && SomeAssigns(sources, ORPHAN_SECTION))
  {
    hide ReadSource, WriteLines, MergeAll, SectionOf, SomeAssigns;
    var d := MergeAll(sources);
    MergeAllReadable(sources);
    RoundTripExactly(d, space);
    OrderOfFirstAppearance(sources, ORPHAN_SECTION);
    AssignedBySome(sources, ORPHAN_SECTION);
    FirstAppearsFirst(AllNames(sources));
    KeysAt(d);
    if ORPHAN_SECTION in AllNames(sources) {
      AppearanceKept(AllNames(sources), ORPHAN_SECTION);
      var i :| 0 <= i < |d| && Keys(d)[i] == ORPHAN_SECTION;
      SectionAt(d, i);
    } else if ORPHAN_SECTION in FirstAppearances(AllNames(sources)) {
      FirstAppearancesFrom(AllNames(sources), ORPHAN_SECTION);
    }
  }

  /** Some source has a key in the section. */
  ghost predicate SomeAssigns(sources: seq<Document>, name: string) {
    exists i :: 0 <= i < |sources| && SectionOf(sources[i], name) != []
  }

  lemma {:induction false} AssignedBySome(sources: seq<Document>, name: string)
    requires AllReadable(sources)
    ensures SectionOf(MergeAll(sources), name) != [] <==> SomeAssigns(sources, name)
  {
    hide MergeAll, SectionOf, SomeAssigns, FirstAppearances;
    OrderOfFirstAppearance(sources, name);
    KeysAt(SectionOf(MergeAll(sources), name));
    FirstAppearsFirst(AllKeys(sources, name));
    NoneAppears();
    KeysOfSome(sources, name);
  }

  lemma NoneAppears()
    ensures FirstAppearances([]) == []
  {
  }

  lemma {:induction false} KeysOfSome(sources: seq<Document>, name: string)
    ensures AllKeys(sources, name) != [] <==> SomeAssigns(sources, name)
  {
    hide SectionOf;
    if sources != [] {
      var before := sources[..|sources| - 1];
      KeysOfSome(before, name);
      KeysAt(SectionOf(sources[|sources| - 1], name));
      if SomeAssigns(before, name) {
        var i :| 0 <= i < |before| && SectionOf(before[i], name) != [];
        assert sources[i] == before[i];
      }
      assert sources == before + [sources[|sources| - 1]];
    }
  }

  lemma SectionAt(d: Document, i: nat)
    requires WellFormed(d) && i < |d|
    ensures SectionOf(d, d[i].key) == d[i].value
  {
    FindUnique(d, i);
  }

  lemma {:induction false} FirstAppearsFirst(names: seq<string>)
    ensures names != [] ==> FirstAppearances(names) != [] && FirstAppearances(names)[0] == names[0]
  {
    if |names| > 1 {
      FirstAppearsFirst(names[..|names| - 1]);
    }
  }

  lemma {:induction false} AppearanceKept(names: seq<string>, name: string)
    requires name in names
    ensures name in FirstAppearances(names)
  {
    if name != names[|names| - 1] {
      AppearanceKept(names[..|names| - 1], name);
    }
  }

  /** An orphan assignment that comes after another section only ends up in the section above it. */
  lemma LateOrphanMoves(name: string, k: string, v: string, key: string, value: string)
    requires name != ORPHAN_SECTION && k != key && k != "" && key != "" && v != "" && value != ""
    ensures var first, second := [Item(name, [Item(k, [[v]])])], [Item(ORPHAN_SECTION, [Item(key, [[value]])])];
      && ReadSource(WriteLines(first, 1)) == Some(first) && ReadSource(WriteLines(second, 1)) == Some(second)
      && MergeAll([first, second]) == first + second
      && ReadSource(WriteLines(first + second, 1)) == Some([Item(name, [Item(k, [[v]]), Item(key, [[value]])])])
  {
    hide ReadFrom, WriteLines, Run, MergeAll, DocumentEvents, Assign;
    var s: Section := [Item(k, [[v]])];
    var first, second := [Item(name, s)], [Item(ORPHAN_SECTION, [Item(key, [[value]])])];
    RoundTripExactly(first, 1);
    RoundTripExactly(second, 1);
    MergeOfTwo(name, s, ORPHAN_SECTION, [Item(key, [[value]])]);
    WrittenEvents(first + second, 1);
    LateOrphanEvents(first, key, value);
    Replay(first);
    var none: Document := [];
    assert none + first == first;
    FindFinds(s, key);
    ReplayMore(none, name, s, DocumentEvents(first), key, value);
    assert none + [Item(name, Put(s, key, [[value]]))] == [Item(name, Put(s, key, [[value]]))];
    assert Put(s, key, [[value]]) == [Item(k, [[v]]), Item(key, [[value]])];
  }

  lemma ReplayMore(d: Document, name: string, s: Section, events: seq<Event>, key: string, value: string)
    requires Run(START, events) == Reading(d + [Item(name, s)], Some(name)) && !Has(s, key) && value != ""
    ensures Run(START, events + [Assignment(key, [value])]).document == d + [Item(name, Put(s, key, [[value]]))]
  {
    hide Run, Put;
    var none: seq<Value> := [];
    assert none + [[value]] == [[value]];
    RunAppend(START, events, [Assignment(key, [value])]);
    RunOne(Reading(d + [Item(name, s)], Some(name)), Assignment(key, [value]));
    AssignInLast(d, name, s, key, [value]);
  }

  lemma {:induction false} MergeIntoEmpty(s: Section)
    requires Distinct(s)
    ensures MergeSection([], s) == s
  {
    hide Put;
    if s != [] {
      MergeIntoEmpty(s[..|s| - 1]);
      PutLast(s);
    }
  }

  lemma PutLast(s: Section)
    requires Distinct(s) && s != []
    ensures Put(s[..|s| - 1], s[|s| - 1].key, s[|s| - 1].value) == s
  {
    hide Find;
    FindFinds(s[..|s| - 1], s[|s| - 1].key);
  }

  lemma MergeNewSection(a: Document, name: string, s: Section)
    requires !Has(a, name) && Distinct(s)
    ensures Merge(a, [Item(name, s)]) == a + [Item(name, s)]
  {
    MergeIntoEmpty(s);
    assert [Item(name, s)][..0] == [];
  }

  lemma MergeOfTwo(name: string, s: Section, name': string, s': Section)
    requires name != name' && Distinct(s) && Distinct(s')
    ensures MergeAll([[Item(name, s)], [Item(name', s')]]) == [Item(name, s)] + [Item(name', s')]
  {
    hide Merge, Has;
    var a: Document, b: Document := [Item(name, s)], [Item(name', s')];
    var none: Document := [];
    var nothing: seq<Document> := [];
    assert [a, b][..1] == [a] && [a][..0] == nothing;
    assert MergeAll([a]) == Merge(MergeAll(nothing), a) == Merge(none, a);
    AbsentFromOne(a[0], name');
    AbsentFromOne(b[0], name);
    MergeNewSection(none, name, s);
    assert none + a == a;
    MergeNewSection(a, name', s');
  }

  lemma AbsentFromOne(item: Item<Section>, name: string)
    requires item.key != name
    ensures !Has<Section>([], name) && !Has([item], name)
  {
    FindFinds([item], name);
  }

  lemma LateOrphanEvents(first: Document, key: string, value: string)
    requires value != ""
    ensures DocumentEvents(first + [Item(ORPHAN_SECTION, [Item(key, [[value]])])]) ==
            DocumentEvents(first) + [Assignment(key, [value])]
  {
    var last := Item(ORPHAN_SECTION, [Item(key, [[value]])]);
    assert (first + [last])[..|first|] == first;
    assert KeyEvents(key, [[value]]) == [Assignment(key, [value])];
    assert SectionEvents([Item(key, [[value]])]) == [Assignment(key, [value])];
  }
}
