/** `Aseini.patch` and `Aseini.fallback`: merging another document's sections
    into this one, section by section in the other document's order. */
module Merging {
  import opened Wrappers
  import opened OrderedDicts
  import opened Documents

  /** `self[name]` if present, else a new empty section. */
  function SectionOrEmpty(secs: Sections, name: string): Section {
    match Find(secs, name)
    case Some(sec) => sec
    case None => []
  }

  /** One turn of `patch`'s loop: `section.update(other_section)`. */
  function PatchSection(secs: Sections, name: string, other: Section): Sections {
    Put(secs, name, Update(SectionOrEmpty(secs, name), other))
  }

  function PatchSections(secs: Sections, other: Sections): Sections
    decreases |other|
  {
    if |other| == 0 then secs
    else
      var last := other[|other| - 1];
      PatchSection(PatchSections(secs, other[..|other| - 1]), last.0, last.1)
  }

  /** `self.patch(other)`: the headers are kept. */
  function Patch(d: Document, other: Document): Document {
    Document(d.headers, PatchSections(d.sections, other.sections))
  }

  /** One turn of `fallback`'s outer loop: the inner loop adds the keys the
      section lacks. */
  function FallbackSection(secs: Sections, name: string, other: Section): Sections {
    Put(secs, name, FillMissing(SectionOrEmpty(secs, name), other))
  }

  function FallbackSections(secs: Sections, other: Sections): Sections
    decreases |other|
  {
    if |other| == 0 then secs
    else
      var last := other[|other| - 1];
      FallbackSection(FallbackSections(secs, other[..|other| - 1]), last.0, last.1)
  }

  /** `self.fallback(other)`: the headers are kept. */
  function Fallback(d: Document, other: Document): Document {
    Document(d.headers, FallbackSections(d.sections, other.sections))
  }

  lemma LookupSectionOrEmpty(secs: Sections, name: string, key: string)
    ensures Lookup(secs, name, key) == Find(SectionOrEmpty(secs, name), key)
  {
  }

  /** The entries of `other` seen through its last section and the rest. */
  lemma LookupLast(other: Sections, s: string, k: string)
    requires |other| > 0 && Unique(other)
    ensures var n := |other| - 1;
      Lookup(other, s, k) == if s == other[n].0 then Find(other[n].1, k) else Lookup(other[..n], s, k)
    ensures s == other[|other| - 1].0 ==> Lookup(other[..|other| - 1], s, k).None?
  {
    var n := |other| - 1;
    if HasKey(other[..n], s) {
      FindPrefix(other, n, s);
      assert s != other[n].0 by {
        assert other[Position(other[..n], s)].0 == s;
      }
    } else {
      FindAfterPrefix(other, n, s);
    }
  }

  lemma PatchSectionLookup(secs: Sections, name: string, other: Section, s: string, k: string)
    requires Unique(other)
    ensures Lookup(PatchSection(secs, name, other), s, k)
      == if s == name && HasKey(other, k) then Find(other, k) else Lookup(secs, s, k)
  {
    PutFind(secs, name, Update(SectionOrEmpty(secs, name), other), s);
    UpdateFind(SectionOrEmpty(secs, name), other, k);
  }

  lemma FallbackSectionLookup(secs: Sections, name: string, other: Section, s: string, k: string)
    ensures Lookup(FallbackSection(secs, name, other), s, k)
      == if s == name && Lookup(secs, s, k).None? then Find(other, k) else Lookup(secs, s, k)
  {
    PutFind(secs, name, FillMissing(SectionOrEmpty(secs, name), other), s);
    FillMissingFind(SectionOrEmpty(secs, name), other, k);
  }

  /** The sections before the last of well-formed sections are well-formed,
      and the last one's keys are distinct. */
  lemma WellFormedInit(other: Sections)
    requires |other| > 0 && WellFormedSections(other)
    ensures WellFormedSections(other[..|other| - 1]) && Unique(other[|other| - 1].1)
  {
    var n := |other| - 1;
    assert other[n] in other;
    assert forall e :: e in other[..n] ==> e in other;
  }

  /** The section names of `other` are those before its last one and the last. */
  lemma HasKeyLast(other: Sections, m: string)
    requires |other| > 0
    ensures var n := |other| - 1; HasKey(other, m) <==> HasKey(other[..n], m) || m == other[n].0
  {
    var n := |other| - 1;
    if HasKey(other[..n], m) { FindPrefix(other, n, m); } else { FindAfterPrefix(other, n, m); }
  }

  /** After `patch(other)` every entry of `other` holds `other`'s value and every
      other entry is as before. */
  lemma {:induction false} PatchLookup(secs: Sections, other: Sections, s: string, k: string)
    requires WellFormedSections(other)
    ensures Lookup(PatchSections(secs, other), s, k)
      == if Lookup(other, s, k).Some? then Lookup(other, s, k) else Lookup(secs, s, k)
    decreases |other|
  {
    if |other| > 0 {
      var n := |other| - 1;
      var init := other[..n];
      var prev := PatchSections(secs, init);
      WellFormedInit(other);
      PatchLookup(secs, init, s, k);
      PatchSectionLookup(prev, other[n].0, other[n].1, s, k);
      LookupLast(other, s, k);
      assert PatchSections(secs, other) == PatchSection(prev, other[n].0, other[n].1);
      if s == other[n].0 {
        assert Lookup(init, s, k).None?;
        assert Lookup(prev, s, k) == Lookup(secs, s, k);
      }
    }
  }

  /** After `fallback(other)` every entry already present keeps its value and
      only the missing entries take `other`'s. */
  lemma {:induction false} FallbackLookup(secs: Sections, other: Sections, s: string, k: string)
    requires Unique(other)
    ensures Lookup(FallbackSections(secs, other), s, k)
      == if Lookup(secs, s, k).Some? then Lookup(secs, s, k) else Lookup(other, s, k)
    decreases |other|
  {
    if |other| > 0 {
      var n := |other| - 1;
      FallbackLookup(secs, other[..n], s, k);
      FallbackSectionLookup(FallbackSections(secs, other[..n]), other[n].0, other[n].1, s, k);
      LookupLast(other, s, k);
    }
  }

  /** One turn of `patch`'s loop keeps every section and key, adds the section
      `name` if missing and keeps names and keys distinct. */
  lemma PatchSectionExtends(prev: Sections, name: string, o: Section)
    ensures Extends(prev, PatchSection(prev, name, o))
    ensures forall m :: HasKey(PatchSection(prev, name, o), m) <==> HasKey(prev, m) || m == name
    ensures WellFormedSections(prev) ==> WellFormedSections(PatchSection(prev, name, o))
  {
    var sec := Update(SectionOrEmpty(prev, name), o);
    PutKeys(prev, name, sec);
    UpdateKeys(SectionOrEmpty(prev, name), o);
    forall s, k | Lookup(prev, s, k).Some? ensures Lookup(PatchSection(prev, name, o), s, k).Some? {
      PutFind(prev, name, sec, s);
    }
    forall m ensures HasKey(PatchSection(prev, name, o), m) <==> HasKey(prev, m) || m == name {
      PutFind(prev, name, sec, m);
    }
    if WellFormedSections(prev) {
      assert HasKey(prev, name) ==> prev[Position(prev, name)] in prev;
      PutMembers(prev, name, sec);
    }
  }

  /** One turn of `fallback`'s outer loop changes no stored value, adds the
      section `name` if missing and keeps names and keys distinct. */
  lemma FallbackSectionGrows(prev: Sections, name: string, o: Section)
    ensures Grows(prev, FallbackSection(prev, name, o))
    ensures forall m :: HasKey(FallbackSection(prev, name, o), m) <==> HasKey(prev, m) || m == name
    ensures WellFormedSections(prev) ==> WellFormedSections(FallbackSection(prev, name, o))
  {
    var sec := FillMissing(SectionOrEmpty(prev, name), o);
    PutKeys(prev, name, sec);
    FillMissingKeys(SectionOrEmpty(prev, name), o);
    forall s, k | Lookup(prev, s, k).Some? ensures Lookup(FallbackSection(prev, name, o), s, k) == Lookup(prev, s, k) {
      FallbackSectionLookup(prev, name, o, s, k);
    }
    forall m ensures HasKey(FallbackSection(prev, name, o), m) <==> HasKey(prev, m) || m == name {
      PutFind(prev, name, sec, m);
    }
    if WellFormedSections(prev) {
      assert HasKey(prev, name) ==> prev[Position(prev, name)] in prev;
      PutMembers(prev, name, sec);
    }
  }

  /** Neither merge removes a section or a key; the receiver's sections keep
      their order at the front, the other document's new sections follow, and
      names and keys stay distinct. */
  lemma {:induction false} PatchExtends(secs: Sections, other: Sections)
    ensures Extends(secs, PatchSections(secs, other))
    ensures forall n :: HasKey(PatchSections(secs, other), n) <==> HasKey(secs, n) || HasKey(other, n)
    ensures WellFormedSections(secs) ==> WellFormedSections(PatchSections(secs, other))
    decreases |other|
  {
    if |other| > 0 {
      var n := |other| - 1;
      var prev := PatchSections(secs, other[..n]);
      PatchExtends(secs, other[..n]);
      PatchSectionExtends(prev, other[n].0, other[n].1);
      ExtendsTransitive(secs, prev, PatchSections(secs, other));
      forall m ensures HasKey(other, m) <==> HasKey(other[..n], m) || m == other[n].0 {
        HasKeyLast(other, m);
      }
    }
  }

  lemma {:induction false} FallbackExtends(secs: Sections, other: Sections)
    ensures Grows(secs, FallbackSections(secs, other))
    ensures forall n :: HasKey(FallbackSections(secs, other), n) <==> HasKey(secs, n) || HasKey(other, n)
    ensures WellFormedSections(secs) ==> WellFormedSections(FallbackSections(secs, other))
    decreases |other|
  {
    if |other| > 0 {
      var n := |other| - 1;
      var prev := FallbackSections(secs, other[..n]);
      FallbackExtends(secs, other[..n]);
      FallbackSectionGrows(prev, other[n].0, other[n].1);
      GrowsTransitive(secs, prev, FallbackSections(secs, other));
      forall m ensures HasKey(other, m) <==> HasKey(other[..n], m) || m == other[n].0 {
        HasKeyLast(other, m);
      }
    }
  }

  /** Stacking fallbacks, most authoritative first: each entry comes from the
      document itself if it has one, else from the first fallback, else from
      the second. */
  lemma FallbackTwice(d: Document, a: Document, b: Document, s: string, k: string)
    requires WellFormed(a) && WellFormed(b)
    ensures Lookup(Fallback(Fallback(d, a), b).sections, s, k)
      == if Lookup(d.sections, s, k).Some? then Lookup(d.sections, s, k)
         else if Lookup(a.sections, s, k).Some? then Lookup(a.sections, s, k)
         else Lookup(b.sections, s, k)
  {
    FallbackLookup(d.sections, a.sections, s, k);
    FallbackLookup(Fallback(d, a).sections, b.sections, s, k);
  }
}
