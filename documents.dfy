/** The in-memory document of an Aseprite strings file: the header lines and an
    ordered dictionary from section name to section, each section an ordered
    dictionary from key to value. */
module Documents {
  import opened Wrappers
  import opened Strings
  import opened OrderedDicts

  type Section = Dict<string>

  type Sections = Dict<Section>

  datatype Document = Document(headers: seq<string>, sections: Sections)

  /** Section names are distinct, and so are the keys of each section. */
  predicate WellFormedSections(secs: Sections) {
    Unique(secs) && forall s :: s in secs ==> Unique(s.1)
  }

  predicate WellFormed(d: Document) {
    WellFormedSections(d.sections)
  }

  /** `self[name][key]` when `name in self and key in self[name]`. */
  function Lookup(secs: Sections, name: string, key: string): Option<string> {
    match Find(secs, name)
    case None => None
    case Some(sec) => Find(sec, key)
  }

  /** A value's kind is decided by its prefix alone: heredoc values start with `<<<`. */
  predicate IsHeredoc(v: string) {
    StartsWith(v, "<<<")
  }

  /** The stored form of a heredoc: the opening `<<<TAG`, the body lines and the
      closing tag, joined by newlines. */
  function HeredocText(tag: string, body: seq<string>): string {
    JoinLines(["<<<" + tag] + body + [tag])
  }

  /** Heredoc body lines as the decoder keeps them: right-stripped, and none of
      them is the closing tag once stripped. */
  predicate HeredocBody(tag: string, body: seq<string>) {
    forall k :: 0 <= k < |body| ==> RStripped(body[k]) && Strip(body[k]) != tag
  }

  /** A value as the decoder stores it: a stripped plain value that does not
      start with `<<<`, or a heredoc envelope around its body lines. */
  ghost predicate DecodedValue(v: string) {
    (!IsHeredoc(v) && Stripped(v))
    || exists tag, body :: v == HeredocText(tag, body) && Stripped("<<<" + tag) && HeredocBody(tag, body)
  }

  /** Section names and keys are stripped, keys hold no `=`, and values are
      as the decoder stores them. */
  ghost predicate DecodedSections(secs: Sections) {
    forall s :: s in secs ==>
      Stripped(s.0) && forall e :: e in s.1 ==> Stripped(e.0) && '=' !in e.0 && DecodedValue(e.1)
  }

  lemma FindWellFormed(secs: Sections, name: string)
    requires WellFormedSections(secs) && HasKey(secs, name)
    ensures Unique(Find(secs, name).value)
  {
    assert secs[Position(secs, name)] in secs;
  }

  /** In a well-formed document every pair is found where it stands. */
  lemma LookupOwnEntries(d: Sections)
    requires WellFormedSections(d)
    ensures forall s :: s in d ==> forall e :: e in s.1 ==> Lookup(d, s.0, e.0) == Some(e.1)
  {
    forall s, e | s in d && e in s.1 ensures Lookup(d, s.0, e.0) == Some(e.1) {
      var i :| 0 <= i < |d| && d[i] == s;
      var j :| 0 <= j < |s.1| && s.1[j] == e;
      FindUnique(d, i);
      FindUnique(s.1, j);
    }
  }

  /** `b` extends `a`: `a`'s section names keep their order at the front and
      every entry of `a` is still present. */
  ghost predicate Extends(a: Sections, b: Sections) {
    |a| <= |b| && Keys(b)[..|a|] == Keys(a)
    && forall n, k :: Lookup(a, n, k).Some? ==> Lookup(b, n, k).Some?
  }

  /** `b` extends `a` and every entry of `a` keeps its value. */
  ghost predicate Grows(a: Sections, b: Sections) {
    Extends(a, b)
    && forall n, k :: Lookup(a, n, k).Some? ==> Lookup(b, n, k) == Lookup(a, n, k)
  }

  lemma ExtendsTransitive(a: Sections, b: Sections, c: Sections)
    requires Extends(a, b) && Extends(b, c)
    ensures Extends(a, c)
  {
    assert Keys(c)[..|a|] == Keys(c)[..|b|][..|a|];
  }

  lemma GrowsTransitive(a: Sections, b: Sections, c: Sections)
    requires Grows(a, b) && Grows(b, c)
    ensures Grows(a, c)
  {
    assert Keys(c)[..|a|] == Keys(c)[..|b|][..|a|];
  }

  /** Every element of `Put(d, k, v)` is an element of `d` or the new entry. */
  lemma PutMembers<V>(d: Dict<V>, k: string, v: V)
    ensures forall e :: e in Put(d, k, v) ==> e in d || e == (k, v)
  {
    if HasKey(d, k) {
      forall e | e in Put(d, k, v) ensures e in d || e == (k, v) {
        var i :| 0 <= i < |d| && Put(d, k, v)[i] == e;
        if i != Position(d, k) { assert e == d[i]; }
      }
    }
  }
}
