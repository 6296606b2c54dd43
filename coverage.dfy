/** `Aseini.coverage(source)`: how many of the source document's (section, key)
    pairs this document also has, out of how many the source has. */
module Coverages {
  import opened Wrappers
  import opened OrderedDicts
  import opened Documents
  import Merging

  /** `total`: the number of keys summed over all source sections. */
  function Total(source: Sections): nat
    decreases |source|
  {
    if |source| == 0 then 0
    else Total(source[..|source| - 1]) + |source[|source| - 1].1|
  }

  /** How many keys of the source section `name` the receiver has in its own
      section of that name. */
  function TranslatedIn(self: Sections, name: string, sec: Section): (n: nat)
    ensures n <= |sec|
    decreases |sec|
  {
    if |sec| == 0 then 0
    else
      TranslatedIn(self, name, sec[..|sec| - 1])
      + (if Lookup(self, name, sec[|sec| - 1].0).Some? then 1 else 0)
  }

  /** `translated`: the source pairs the receiver also has. */
  function Translated(self: Sections, source: Sections): (n: nat)
    ensures n <= Total(source)
    decreases |source|
  {
    if |source| == 0 then 0
    else
      var last := source[|source| - 1];
      Translated(self, source[..|source| - 1]) + TranslatedIn(self, last.0, last.1)
  }

  /** `self.coverage(source)`, as the pair `(translated, total)`. */
  function Coverage(self: Document, source: Document): (r: (nat, nat))
    ensures r.0 <= r.1
  {
    (Translated(self.sections, source.sections), Total(source.sections))
  }

  /** Every (section, key) pair of `source` is present in `self`. */
  ghost predicate Covers(self: Sections, source: Sections) {
    forall s :: s in source ==> forall e :: e in s.1 ==> Lookup(self, s.0, e.0).Some?
  }

  lemma {:induction false} TranslatedInFull(self: Sections, name: string, sec: Section)
    ensures TranslatedIn(self, name, sec) == |sec|
      <==> forall e :: e in sec ==> Lookup(self, name, e.0).Some?
    decreases |sec|
  {
    if |sec| > 0 {
      var n := |sec| - 1;
      TranslatedInFull(self, name, sec[..n]);
      assert forall e :: e in sec <==> e in sec[..n] || e == sec[n] by {
        assert sec == sec[..n] + [sec[n]];
      }
    }
  }

  /** Coverage is complete exactly when every source pair is present. */
  lemma {:induction false} CoverageFull(self: Sections, source: Sections)
    ensures Translated(self, source) == Total(source) <==> Covers(self, source)
    decreases |source|
  {
    if |source| > 0 {
      var n := |source| - 1;
      var init, last := source[..n], source[n];
      CoverageFull(self, init);
      TranslatedInFull(self, last.0, last.1);
      assert Translated(self, source) == Translated(self, init) + TranslatedIn(self, last.0, last.1);
      assert Total(source) == Total(init) + |last.1|;
      CoversLast(self, source);
    }
  }

  /** The source pairs are those of all sections but the last, and the last's. */
  lemma CoversLast(self: Sections, source: Sections)
    requires |source| > 0
    ensures var n := |source| - 1;
      Covers(self, source) <==>
        (Covers(self, source[..n]) && forall e :: e in source[n].1 ==> Lookup(self, source[n].0, e.0).Some?)
  {
    var n := |source| - 1;
    var init := source[..n];
    if Covers(self, source) {
      assert source[n] in source;
      forall s | s in init ensures s in source {
        var i :| 0 <= i < n && init[i] == s;
        assert source[i] == s;
      }
    }
    if Covers(self, init) && forall e :: e in source[n].1 ==> Lookup(self, source[n].0, e.0).Some? {
      forall s | s in source ensures forall e :: e in s.1 ==> Lookup(self, s.0, e.0).Some? {
        var i :| 0 <= i < |source| && source[i] == s;
        if i < n {
          assert init[i] == s;
        }
      }
    }
  }

  lemma {:induction false} TranslatedInMonotonic(a: Sections, b: Sections, name: string, sec: Section)
    requires forall n, k :: Lookup(a, n, k).Some? ==> Lookup(b, n, k).Some?
    ensures TranslatedIn(a, name, sec) <= TranslatedIn(b, name, sec)
    decreases |sec|
  {
    if |sec| > 0 {
      TranslatedInMonotonic(a, b, name, sec[..|sec| - 1]);
    }
  }

  /** Adding entries to the receiver cannot lower `translated`. */
  lemma {:induction false} CoverageMonotonic(a: Sections, b: Sections, source: Sections)
    requires forall n, k :: Lookup(a, n, k).Some? ==> Lookup(b, n, k).Some?
    ensures Translated(a, source) <= Translated(b, source)
    decreases |source|
  {
    if |source| > 0 {
      var n := |source| - 1;
      CoverageMonotonic(a, b, source[..n]);
      TranslatedInMonotonic(a, b, source[n].0, source[n].1);
    }
  }

  /** A well-formed document fully covers itself. */
  lemma CoverageOfSelf(d: Document)
    requires WellFormed(d)
    ensures Coverage(d, d) == (Total(d.sections), Total(d.sections))
  {
    LookupOwnEntries(d.sections);
    CoverageFull(d.sections, d.sections);
  }

  /** After `fallback(source)` every source pair is translated. */
  lemma CoverageAfterFallback(d: Document, source: Document)
    requires WellFormed(source)
    ensures Coverage(Merging.Fallback(d, source), source) == (Total(source.sections), Total(source.sections))
  {
    var r := Merging.Fallback(d, source).sections;
    LookupOwnEntries(source.sections);
    forall s, e | s in source.sections && e in s.1 ensures Lookup(r, s.0, e.0).Some? {
      Merging.FallbackLookup(d.sections, source.sections, s.0, e.0);
    }
    CoverageFull(r, source.sections);
  }

  /** After `patch(source)` every source pair is translated. */
  lemma CoverageAfterPatch(d: Document, source: Document)
    requires WellFormed(source)
    ensures Coverage(Merging.Patch(d, source), source) == (Total(source.sections), Total(source.sections))
  {
    var r := Merging.Patch(d, source).sections;
    LookupOwnEntries(source.sections);
    forall s, e | s in source.sections && e in s.1 ensures Lookup(r, s.0, e.0).Some? {
      Merging.PatchLookup(d.sections, source.sections, s.0, e.0);
    }
    CoverageFull(r, source.sections);
  }
}
