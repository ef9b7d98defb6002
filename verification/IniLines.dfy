/** Single lines of a source: which a reader rejects, what the others mean, and how written ones are laid out. */
module IniLines {
  import opened Common
  import opened OrderedDict
  import opened IniDocument
  import opened IniSource
  import opened IniRoundTrip

  // ---------------------------------------------------------------- what is rejected

  /** A line after which an indented one continues the value. */
  predicate Continues(line: Line) {
    line.KeyValue? || (line.Indented? && line.text != "")
  }

  /** A line that cannot be understood, an assignment without a key, or a continuation of nothing. */
  predicate BadLine(lines: seq<Line>, i: nat)
    requires i < |lines|
  {
    match lines[i]
    case Malformed => true
    case KeyValue(key, _) => key == ""
    case Indented(width, text) => text != "" && (width == 0 || i == 0 || !Continues(lines[i - 1]))
    case _ => false
  }

  ghost predicate SomeBadLine(lines: seq<Line>) {
    exists i :: 0 <= i < |lines| && BadLine(lines, i)
  }

  lemma {:induction false} BadLineSnoc(lines: seq<Line>)
    requires lines != []
    ensures SomeBadLine(lines) <==> SomeBadLine(lines[..|lines| - 1]) || BadLine(lines, |lines| - 1)
  {
    var before := lines[..|lines| - 1];
    forall i | 0 <= i < |before|
      ensures BadLine(before, i) <==> BadLine(lines, i)
    {
    }
    if SomeBadLine(before) {
      var i :| 0 <= i < |before| && BadLine(before, i);
      assert BadLine(lines, i);
    }
    if SomeBadLine(lines) {
      var i :| 0 <= i < |lines| && BadLine(lines, i);
      assert i < |before| ==> BadLine(before, i);
    }
  }

  /** A source is rejected exactly when it has a bad line. */
  lemma {:induction false} RejectedExactly(lines: seq<Line>)
    ensures ReadSource(lines).None? <==> SomeBadLine(lines)
    ensures ReadSource(lines).Some? ==>
            (ReadFrom(AT_START, lines).pending.Some? <==> lines != [] && Continues(lines[|lines| - 1]))
  {
    hide SomeBadLine, ReadEvents;
    if lines != [] {
      RejectedExactly(lines[..|lines| - 1]);
      BadLineSnoc(lines);
    } else {
      NoBadLine();
    }
  }

  lemma NoBadLine()
    ensures !SomeBadLine([])
  {
  }

  // ---------------------------------------------------------------- what the others mean

  /** The events of a source, each line taking effect at once: a continuation amends the assignment before it. */
  function EventsOf(lines: seq<Line>): seq<Event> {
    if lines == [] then []
    else
      var before, last := EventsOf(lines[..|lines| - 1]), lines[|lines| - 1];
      match last
      case Header(name) => before + [NewSection(name)]
      case KeyValue(key, first) => before + [Assignment(key, [first])]
      case Indented(_, text) => if text == "" then before else Amended(before, text)
      case _ => before
  }

  function Amended(events: seq<Event>, text: string): seq<Event> {
    if events == [] || !events[|events| - 1].Assignment? then events
    else
      var last := events[|events| - 1];
      events[..|events| - 1] + [Assignment(last.key, last.value + [text])]
  }

  /** The reader, which holds an assignment back until it is complete, hands on just these events. */
  lemma {:induction false} HoldingBackIsHarmless(lines: seq<Line>)
    requires !ReadFrom(AT_START, lines).failed
    ensures Flushed(ReadFrom(AT_START, lines)) == EventsOf(lines)
  {
    if lines != [] {
      var before, last := lines[..|lines| - 1], lines[|lines| - 1];
      var r := ReadFrom(AT_START, before);
      assert !r.failed;
      HoldingBackIsHarmless(before);
      assert ReadFrom(AT_START, lines) == ReadLine(r, last);
      if last.Indented? && last.text != "" {
        AmendPending(r, last.text);
      }
    }
  }

  lemma AmendPending(r: Reader, text: string)
    requires r.pending.Some?
    ensures Amended(Flushed(r), text) ==
            Flushed(r.(pending := Some((r.pending.value.0, r.pending.value.1 + [text]))))
  {
  }

  /** So a source that is not rejected is the document of these events. */
  lemma {:induction false} SourceIsItsEvents(lines: seq<Line>)
    requires !SomeBadLine(lines)
    ensures ReadSource(lines) == Some(ReadEvents(EventsOf(lines)))
  {
    hide SomeBadLine, ReadEvents;
    RejectedExactly(lines);
    HoldingBackIsHarmless(lines);
  }

  // ---------------------------------------------------------------- layout

  /** That many blanks. */
  function Pad(space: nat): (pad: string)
    ensures |pad| == space
  {
    seq(space, _ => ' ')
  }

  lemma {:induction false} ContinuationsAt(width: nat, texts: seq<string>)
    ensures |Continuations(width, texts)| == |texts|
    ensures forall i :: 0 <= i < |texts| ==> Continuations(width, texts)[i] == Indented(width, texts[i])
  {
    if texts != [] {
      ContinuationsAt(width, texts[..|texts| - 1]);
    }
  }

  lemma PrefixLength(key: string, space: nat)
    ensures |key + Pad(space) + "=" + Pad(space)| == |key| + space * 2 + 1
  {
    hide Pad;
  }

  /** The first text of a value stands after the equals sign, and all others stand below it. */
  lemma {:induction false} ValuesAreAligned(key: string, v: Value, space: nat)
    ensures v == [] ==> ValueLines(key, v, space) == [KeyValue(key, "")]
    ensures v != [] ==>
              && |ValueLines(key, v, space)| == |v| && ValueLines(key, v, space)[0] == KeyValue(key, v[0])
              && forall i :: 1 <= i < |v| ==>
                   ValueLines(key, v, space)[i] == Indented(|key + Pad(space) + "=" + Pad(space)|, v[i])
  {
    hide Continuations, Pad;
    if v != [] {
      var width := |key| + space * 2 + 1;
      PrefixLength(key, space);
      ContinuationsAt(width, v[1..]);
      assert ValueLines(key, v, space) == [KeyValue(key, v[0])] + Continuations(width, v[1..]);
      hide ValueLines;
    }
  }

  function BlankLines(lines: seq<Line>): nat {
    if lines == [] then 0 else BlankLines(lines[..|lines| - 1]) + if lines[|lines| - 1].Blank? then 1 else 0
  }

  lemma {:induction false} BlankLinesAppend(a: seq<Line>, b: seq<Line>)
    ensures BlankLines(a + b) == BlankLines(a) + BlankLines(b)
  {
    if b != [] {
      BlankLinesAppend(a, b[..|b| - 1]);
      assert (a + b)[..|a + b| - 1] == a + b[..|b| - 1];
    } else {
      assert a + b == a;
    }
  }

  lemma {:induction false} NoBlankLines(lines: seq<Line>)
    requires forall i :: 0 <= i < |lines| ==> !lines[i].Blank?
    ensures BlankLines(lines) == 0
  {
    if lines != [] {
      NoBlankLines(lines[..|lines| - 1]);
    }
  }

  lemma ValuesHaveNoBlankLines(key: string, v: Value, space: nat)
    ensures BlankLines(ValueLines(key, v, space)) == 0
  {
    hide BlankLines, Continuations;
    ContinuationsAt(|key| + space * 2 + 1, if v == [] then [] else v[1..]);
    NoBlankLines(ValueLines(key, v, space));
  }

  lemma {:induction false} KeysHaveNoBlankLines(key: string, vs: seq<Value>, space: nat)
    ensures BlankLines(KeyLines(key, vs, space)) == 0
  {
    hide ValueLines;
    if vs != [] {
      var before, v := vs[..|vs| - 1], vs[|vs| - 1];
      KeysHaveNoBlankLines(key, before, space);
      ValuesHaveNoBlankLines(key, v, space);
      BlankLinesAppend(KeyLines(key, before, space), ValueLines(key, v, space));
    }
  }

  lemma {:induction false} SectionsHaveNoBlankLines(s: Section, space: nat)
    ensures BlankLines(SectionLines(s, space)) == 0
  {
    if s != [] {
      var before, last := s[..|s| - 1], s[|s| - 1];
      SectionsHaveNoBlankLines(before, space);
      KeysHaveNoBlankLines(last.key, last.value, space);
      BlankLinesAppend(SectionLines(before, space), KeyLines(last.key, last.value, space));
    }
  }

  /** Every section is followed by one blank line, and there is no other one. */
  lemma {:induction false} SectionsAreSeparated(d: Document, space: nat)
    ensures BlankLines(WriteLines(d, space)) == |d|
    ensures d != [] ==> WriteLines(d, space) != [] && WriteLines(d, space)[|WriteLines(d, space)| - 1] == Blank
  {
    hide SectionLines;
    if d != [] {
      var before, last := d[..|d| - 1], d[|d| - 1];
      var body := HeaderLines(last.key) + SectionLines(last.value, space);
      SectionsAreSeparated(before, space);
      SectionsHaveNoBlankLines(last.value, space);
      NoBlankLines(HeaderLines(last.key));
      BlankLinesAppend(HeaderLines(last.key), SectionLines(last.value, space));
      BlankLinesAppend(body, [Blank]);
      assert BlankLines([Blank]) == 1 by {
        assert [Blank][..0] == [];
      }
      BlankLinesAppend(WriteLines(before, space), body + [Blank]);
    }
  }
}
