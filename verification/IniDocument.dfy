/**
 INI documents as the merging parser sees them: ordered sections of ordered keys, each key with the list of the
 values assigned to it, and each value a list of lines.  This module says what merging documents means.
*/
module IniDocument {
  import opened Common
  import opened OrderedDict

  /** A value is its first line and its continuation lines; an empty value is the empty list. */
  type Value = seq<string>

  type Section = Dict<seq<Value>>
  type Document = Dict<Section>

  // ---------------------------------------------------------------- merging one section into another

  /** The keys of `b` replace or extend those of `a`. */
  function MergeSection(a: Section, b: Section): Section {
    if b == [] then a
    else
      var last := b[|b| - 1];
      Put(MergeSection(a, b[..|b| - 1]), last.key, last.value)
  }

  lemma {:induction false} MergeSectionDistinct(a: Section, b: Section)
    requires Distinct(a)
    ensures Distinct(MergeSection(a, b))
  {
    if b != [] {
      MergeSectionDistinct(a, b[..|b| - 1]);
      PutKeepsDistinct(MergeSection(a, b[..|b| - 1]), b[|b| - 1].key, b[|b| - 1].value);
    }
  }

  /** The last document that has the key decides, and no key is lost. */
  lemma OneMoreKey(m: Section, a: Section, b: Section, last: Item<seq<Value>>, key: string)
    requires Distinct(m) && Get(m, key) == if Get(b, key).Some? then Get(b, key) else Get(a, key)
    ensures Get(Put(m, last.key, last.value), key) ==
            if Get(b + [last], key).Some? then Get(b + [last], key) else Get(a, key)
  {
    hide Get, Put, Distinct;
    GetPut(m, last.key, last.value, key);
    GetSnoc(b, last, key);
  }

  lemma {:induction false} MergeSectionGet(a: Section, b: Section, key: string)
    requires Distinct(a)
    ensures Get(MergeSection(a, b), key) == if Get(b, key).Some? then Get(b, key) else Get(a, key)
  {
    hide Get, Put, Distinct;
    if b != [] {
      var before, last := b[..|b| - 1], b[|b| - 1];
      MergeSectionGet(a, before, key);
      MergeSectionDistinct(a, before);
      OneMoreKey(MergeSection(a, before), a, before, last, key);
      assert b == before + [last];
    } else {
      NoKeyInEmpty(key);
    }
  }

  lemma NoKeyInEmpty(key: string)
    ensures Get<seq<Value>>([], key).None?
  {
  }

  lemma {:induction false} MergeSectionPut(a: Section, b: Section, key: string, value: seq<Value>)
    requires Distinct(a) && Distinct(b)
    ensures MergeSection(a, Put(b, key, value)) == Put(MergeSection(a, b), key, value)
  {
    FindFinds(b, key);
    if !Has(b, key) {
      assert (b + [Item(key, value)])[..|b|] == b;
    } else {
      var before, last := b[..|b| - 1], b[|b| - 1];
      if last.key == key {
        assert Put(b, key, value) == before + [Item(key, value)];
        assert (before + [Item(key, value)])[..|before|] == before;
        PutTwice(MergeSection(a, before), key, last.value, value);
      } else {
        PutBeforeLast(b, key, value);
        var b' := Put(before, key, value);
        assert (b' + [last])[..|b'|] == b';
        MergeSectionPut(a, before, key, value);
        MergeSectionGet(a, before, key);
        GetSnoc(before, last, key);
        assert Get(before, key).Some?;
        PutsCommute(MergeSection(a, before), key, value, last.key, last.value);
      }
    }
  }

  lemma {:induction false} MergeSectionAssociates(a: Section, b: Section, c: Section)
    requires Distinct(a) && Distinct(b)
    ensures MergeSection(MergeSection(a, b), c) == MergeSection(a, MergeSection(b, c))
  {
    if c != [] {
      var before, last := c[..|c| - 1], c[|c| - 1];
      MergeSectionAssociates(a, b, before);
      MergeSectionDistinct(b, before);
      MergeSectionPut(a, MergeSection(b, before), last.key, last.value);
    }
  }

  // ---------------------------------------------------------------- merging documents

  function SectionOf(d: Document, name: string): Section {
    if Get(d, name).Some? then Get(d, name).value else []
  }

  /** A section of the later document is merged into the earlier one's section of that name. */
  function PutSection(d: Document, name: string, s: Section): Document {
    Put(d, name, MergeSection(SectionOf(d, name), s))
  }

  function Merge(a: Document, b: Document): Document {
    if b == [] then a else PutSection(Merge(a, b[..|b| - 1]), b[|b| - 1].key, b[|b| - 1].value)
  }

  /** Names and keys occur once each. */
  ghost predicate WellFormed(d: Document) {
    Distinct(d) && forall i :: 0 <= i < |d| ==> Distinct(d[i].value)
  }

  lemma SectionOfWellFormed(d: Document, name: string)
    requires WellFormed(d)
    ensures Distinct(SectionOf(d, name))
  {
    FindFinds(d, name);
  }

  lemma PutSectionWellFormed(d: Document, name: string, s: Section)
    requires WellFormed(d)
    ensures WellFormed(PutSection(d, name, s))
  {
    SectionOfWellFormed(d, name);
    MergeSectionDistinct(SectionOf(d, name), s);
    PutKeepsDistinct(d, name, MergeSection(SectionOf(d, name), s));
    FindFinds(d, name);
  }

  lemma {:induction false} MergeWellFormed(a: Document, b: Document)
    requires WellFormed(a)
    ensures WellFormed(Merge(a, b))
  {
    if b != [] {
      MergeWellFormed(a, b[..|b| - 1]);
      PutSectionWellFormed(Merge(a, b[..|b| - 1]), b[|b| - 1].key, b[|b| - 1].value);
    }
  }

  lemma SectionOfPut(d: Document, name: string, s: Section, other: string)
    requires WellFormed(d)
    ensures SectionOf(PutSection(d, name, s), other) ==
            if other == name then MergeSection(SectionOf(d, name), s) else SectionOf(d, other)
  {
    GetPut(d, name, MergeSection(SectionOf(d, name), s), other);
  }

  /** Section by section, merging documents is merging sections. */
  lemma {:induction false} SectionOfMerge(a: Document, b: Document, name: string)
    requires WellFormed(a) && WellFormed(b)
    ensures SectionOf(Merge(a, b), name) == MergeSection(SectionOf(a, name), SectionOf(b, name))
    ensures Has(Merge(a, b), name) <==> Has(a, name) || Has(b, name)
  {
    hide Put;
    if b != [] {
      var before, last := b[..|b| - 1], b[|b| - 1];
      assert WellFormed(before);
      SectionOfMerge(a, before, name);
      MergeWellFormed(a, before);
      SectionOfPut(Merge(a, before), last.key, last.value, name);
      GetPut(Merge(a, before), last.key, MergeSection(SectionOf(Merge(a, before), last.key), last.value), name);
      assert b == before + [last];
      FindSnoc(before, last, name);
      GetSnoc(before, last, name);
      FindFinds(before, name);
    }
  }

  function Lookup(d: Document, name: string, key: string): Option<seq<Value>> {
    Get(SectionOf(d, name), key)
  }

  /** Override: of two documents the later one that assigns (section, key) supplies all of its values. */
  lemma MergeLookup(a: Document, b: Document, name: string, key: string)
    requires WellFormed(a) && WellFormed(b)
    ensures Lookup(Merge(a, b), name, key) ==
            if Lookup(b, name, key).Some? then Lookup(b, name, key) else Lookup(a, name, key)
  {
    SectionOfMerge(a, b, name);
    SectionOfWellFormed(a, name);
    MergeSectionGet(SectionOf(a, name), SectionOf(b, name), key);
  }

  lemma PutSectionTwice(d: Document, name: string, s: Section, t: Section)
    requires WellFormed(d) && Distinct(s)
    ensures PutSection(PutSection(d, name, s), name, t) == PutSection(d, name, MergeSection(s, t))
  {
    var v := MergeSection(SectionOf(d, name), s);
    SectionOfWellFormed(d, name);
    SectionOfPut(d, name, s, name);
    MergeSectionAssociates(SectionOf(d, name), s, t);
    PutTwice(d, name, v, MergeSection(v, t));
  }

  lemma PutSectionsCommute(d: Document, name: string, s: Section, other: string, t: Section)
    requires WellFormed(d) && Has(d, name) && name != other
    ensures PutSection(PutSection(d, name, s), other, t) == PutSection(PutSection(d, other, t), name, s)
  {
    SectionOfPut(d, name, s, other);
    SectionOfPut(d, other, t, name);
    PutsCommute(d, name, MergeSection(SectionOf(d, name), s), other, MergeSection(SectionOf(d, other), t));
  }

  lemma {:induction false} MergePutSection(a: Document, b: Document, name: string, s: Section)
    requires WellFormed(a) && WellFormed(b)
    ensures Merge(a, PutSection(b, name, s)) == PutSection(Merge(a, b), name, s)
  {
    var b' := PutSection(b, name, s);
    FindFinds(b, name);
    if !Has(b, name) {
      assert b'[..|b|] == b;
      MergeWellFormed(a, b);
      SectionOfWellFormed(Merge(a, b), name);
      MergeSectionAssociates(SectionOf(Merge(a, b), name), [], s);
    } else {
      var before, last := b[..|b| - 1], b[|b| - 1];
      assert WellFormed(before);
      MergeWellFormed(a, before);
      assert b == before + [last];
      GetSnoc(before, last, name);
      if last.key == name {
        assert b' == before + [Item(name, MergeSection(last.value, s))];
        assert b'[..|before|] == before;
        PutSectionTwice(Merge(a, before), name, last.value, s);
      } else {
        PutBeforeLast(b, name, MergeSection(SectionOf(b, name), s));
        var before' := PutSection(before, name, s);
        assert b' == before' + [last];
        assert b'[..|before'|] == before';
        MergePutSection(a, before, name, s);
        SectionOfMerge(a, before, name);
        PutSectionsCommute(Merge(a, before), name, s, last.key, last.value);
      }
    }
  }

  /** Grouping the sources differently gives the same document, order of sections and keys included. */
  lemma {:induction false} MergeAssociates(a: Document, b: Document, c: Document)
    requires WellFormed(a) && WellFormed(b)
    ensures Merge(Merge(a, b), c) == Merge(a, Merge(b, c))
  {
    if c != [] {
      var before, last := c[..|c| - 1], c[|c| - 1];
      MergeAssociates(a, b, before);
      MergeWellFormed(b, before);
      MergePutSection(a, Merge(b, before), last.key, last.value);
    }
  }

  lemma {:induction false} MergeSectionWithPrefix(a: Section, n: nat)
    requires Distinct(a) && n <= |a|
    ensures MergeSection(a, a[..n]) == a
  {
    if n > 0 {
      MergeSectionWithPrefix(a, n - 1);
      assert a[..n][..n - 1] == a[..n - 1];
      FindUnique(a, n - 1);
    }
  }

  lemma {:induction false} MergeWithPrefix(a: Document, n: nat)
    requires WellFormed(a) && n <= |a|
    ensures Merge(a, a[..n]) == a
  {
    if n > 0 {
      MergeWithPrefix(a, n - 1);
      assert a[..n][..n - 1] == a[..n - 1];
      FindUnique(a, n - 1);
      var s := a[n - 1].value;
      MergeSectionWithPrefix(s, |s|);
      assert s[..|s|] == s;
    }
  }

  /** Reading the last source once more changes nothing. */
  lemma MergeAgain(a: Document, b: Document)
    requires WellFormed(a) && WellFormed(b)
    ensures Merge(Merge(a, b), b) == Merge(a, b)
  {
    MergeAssociates(a, b, b);
    MergeWithPrefix(b, |b|);
    assert b[..|b|] == b;
  }

  // ---------------------------------------------------------------- order

  /** Section names keep the order in which the two documents first mention them. */
  lemma {:induction false} MergeOrder(a: Document, b: Document)
    requires Distinct(a)
    ensures Keys(Merge(a, b)) == FirstAppearances(Keys(a) + Keys(b))
  {
    hide MergeSection, SectionOf, Find, Has, Get, Put;
    if b == [] {
      assert Keys(a) + [] == Keys(a);
      FirstAppearancesOfDistinct(a);
    } else {
      var before, last := b[..|b| - 1], b[|b| - 1];
      MergeOrder(a, before);
      KeysAfterPut(Merge(a, before), last.key, MergeSection(SectionOf(Merge(a, before), last.key), last.value));
      assert Keys(a) + Keys(b) == Keys(a) + Keys(before) + [last.key];
      FirstAppearancesSnoc(Keys(a) + Keys(before), last.key);
    }
  }

  /** And so do the keys of every section. */
  lemma {:induction false} MergeSectionOrder(a: Section, b: Section)
    requires Distinct(a)
    ensures Keys(MergeSection(a, b)) == FirstAppearances(Keys(a) + Keys(b))
  {
    hide Find, Has, Get, Put;
    if b == [] {
      assert Keys(a) + [] == Keys(a);
      FirstAppearancesOfDistinct(a);
    } else {
      var before, last := b[..|b| - 1], b[|b| - 1];
      MergeSectionOrder(a, before);
      KeysAfterPut(MergeSection(a, before), last.key, last.value);
      assert Keys(a) + Keys(b) == Keys(a) + Keys(before) + [last.key];
      FirstAppearancesSnoc(Keys(a) + Keys(before), last.key);
    }
  }

  // ---------------------------------------------------------------- a list of sources

  function MergeAll(sources: seq<Document>): Document {
    if sources == [] then [] else Merge(MergeAll(sources[..|sources| - 1]), sources[|sources| - 1])
  }

  ghost predicate AllWellFormed(sources: seq<Document>) {
    forall i :: 0 <= i < |sources| ==> WellFormed(sources[i])
  }

  lemma {:induction false} MergeAllWellFormed(sources: seq<Document>)
    ensures WellFormed(MergeAll(sources))
  {
    if sources != [] {
      MergeAllWellFormed(sources[..|sources| - 1]);
      MergeWellFormed(MergeAll(sources[..|sources| - 1]), sources[|sources| - 1]);
    }
  }

  /** The last source that assigns (section, key) supplies exactly its own list of values. */
  lemma {:induction false} LastSourceWins(sources: seq<Document>, k: nat, name: string, key: string)
    requires AllWellFormed(sources) && k < |sources|
    requires Lookup(sources[k], name, key).Some?
    requires forall j :: k < j < |sources| ==> Lookup(sources[j], name, key).None?
    ensures Lookup(MergeAll(sources), name, key) == Lookup(sources[k], name, key)
  {
    var before := sources[..|sources| - 1];
    MergeAllWellFormed(before);
    MergeLookup(MergeAll(before), sources[|sources| - 1], name, key);
    if k < |sources| - 1 {
      LastSourceWins(before, k, name, key);
    }
  }

  lemma {:induction false} NoSourceNoValue(sources: seq<Document>, name: string, key: string)
    requires AllWellFormed(sources)
    requires forall j :: 0 <= j < |sources| ==> Lookup(sources[j], name, key).None?
    ensures Lookup(MergeAll(sources), name, key).None?
  {
    if sources != [] {
      var before := sources[..|sources| - 1];
      MergeAllWellFormed(before);
      MergeLookup(MergeAll(before), sources[|sources| - 1], name, key);
      NoSourceNoValue(before, name, key);
    }
  }

  function AllNames(sources: seq<Document>): seq<string> {
    if sources == [] then [] else AllNames(sources[..|sources| - 1]) + Keys(sources[|sources| - 1])
  }

  function AllKeys(sources: seq<Document>, name: string): seq<string> {
    if sources == [] then []
    else AllKeys(sources[..|sources| - 1], name) + Keys(SectionOf(sources[|sources| - 1], name))
  }

  /** Over any list of sources, sections and their keys stand in the order of their first appearance. */
  lemma {:induction false} OrderOfFirstAppearance(sources: seq<Document>, name: string)
    requires AllWellFormed(sources)
    ensures Keys(MergeAll(sources)) == FirstAppearances(AllNames(sources))
    ensures Keys(SectionOf(MergeAll(sources), name)) == FirstAppearances(AllKeys(sources, name))
  {
    if sources != [] {
      var before, last := sources[..|sources| - 1], sources[|sources| - 1];
      OrderOfFirstAppearance(before, name);
      MergeAllWellFormed(before);
      MergeOrder(MergeAll(before), last);
      FirstAppearancesKept(AllNames(before), Keys(last));
      SectionOfMerge(MergeAll(before), last, name);
      SectionOfWellFormed(MergeAll(before), name);
      MergeSectionOrder(SectionOf(MergeAll(before), name), SectionOf(last, name));
      FirstAppearancesKept(AllKeys(before, name), Keys(SectionOf(last, name)));
    }
  }
}
