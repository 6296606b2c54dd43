/** `Aseini.alphabet()`: every character the translations use, with heredoc
    values reduced to the characters of their body lines. */
module Alphabets {
  import opened Strings
  import opened OrderedDicts
  import opened Documents

  /** The text whose characters a value contributes: a heredoc loses its
      `<<<TAG` opening, its closing tag and its newlines. */
  function Unwrap(v: string): string {
    if IsHeredoc(v) then
      var tag := RemovePrefix(SplitLines(v)[0], "<<<");
      RemoveAll(RemoveSuffix(RemovePrefix(v, "<<<" + tag), tag), '\n')
    else v
  }

  function CharSet(s: string): (r: set<char>)
    ensures forall c :: c in r <==> c in s
  {
    set c | c in s
  }

  /** The union of `f` over the elements of `xs`, built in their order. */
  function UnionOf<T>(xs: seq<T>, f: T -> set<char>): set<char>
    decreases |xs|
  {
    if |xs| == 0 then {} else UnionOf(xs[..|xs| - 1], f) + f(xs[|xs| - 1])
  }

  lemma {:induction false} UnionOfMembers<T>(xs: seq<T>, f: T -> set<char>, c: char)
    ensures c in UnionOf(xs, f) <==> exists i :: 0 <= i < |xs| && c in f(xs[i])
    decreases |xs|
  {
    if |xs| > 0 {
      var n := |xs| - 1;
      UnionOfMembers(xs[..n], f, c);
      assert forall i :: 0 <= i < n ==> xs[..n][i] == xs[i];
    }
  }

  /** The characters one entry's value contributes. */
  function EntryAlphabet(e: (string, string)): set<char> {
    CharSet(Unwrap(e.1))
  }

  function SectionAlphabet(sec: Section): set<char> {
    UnionOf(sec, EntryAlphabet)
  }

  function NamedSectionAlphabet(s: (string, Section)): set<char> {
    SectionAlphabet(s.1)
  }

  function SectionsAlphabet(secs: Sections): set<char> {
    UnionOf(secs, NamedSectionAlphabet)
  }

  /** `self.alphabet()`. */
  function Alphabet(d: Document): set<char> {
    SectionsAlphabet(d.sections)
  }

  lemma UnionOfNext<T>(xs: seq<T>, f: T -> set<char>, i: nat)
    requires i < |xs|
    ensures UnionOf(xs[..i + 1], f) == UnionOf(xs[..i], f) + f(xs[i])
  {
    assert xs[..i + 1][..i] == xs[..i];
  }

  /** A character of the alphabet comes from some value of some section. */
  lemma AlphabetWitness(d: Document, c: char) returns (s: (string, Section), e: (string, string))
    requires c in Alphabet(d)
    ensures s in d.sections && e in s.1 && c in Unwrap(e.1)
  {
    var secs := d.sections;
    UnionOfMembers(secs, NamedSectionAlphabet, c);
    var i :| 0 <= i < |secs| && c in NamedSectionAlphabet(secs[i]);
    s := secs[i];
    UnionOfMembers(s.1, EntryAlphabet, c);
    var j :| 0 <= j < |s.1| && c in EntryAlphabet(s.1[j]);
    e := s.1[j];
  }

  /** Every character of every value of every section is in the alphabet. */
  lemma AlphabetHas(d: Document, s: (string, Section), e: (string, string), c: char)
    requires s in d.sections && e in s.1 && c in Unwrap(e.1)
    ensures c in Alphabet(d)
  {
    var secs := d.sections;
    var i :| 0 <= i < |secs| && secs[i] == s;
    var j :| 0 <= j < |s.1| && s.1[j] == e;
    assert c in EntryAlphabet(s.1[j]);
    UnionOfMembers(s.1, EntryAlphabet, c);
    assert c in NamedSectionAlphabet(secs[i]);
    UnionOfMembers(secs, NamedSectionAlphabet, c);
  }

  /** A character is in the alphabet exactly when some value of some section
      contributes it. */
  lemma AlphabetMembers(d: Document, c: char)
    ensures c in Alphabet(d) <==> exists s, e :: s in d.sections && e in s.1 && c in Unwrap(e.1)
  {
    if c in Alphabet(d) {
      var s, e := AlphabetWitness(d, c);
    }
    forall s, e | s in d.sections && e in s.1 && c in Unwrap(e.1) ensures c in Alphabet(d) {
      AlphabetHas(d, s, e, c);
    }
  }

  /** The body lines of a heredoc run together. */
  function Concat(lines: seq<string>): string
    decreases |lines|
  {
    if |lines| == 0 then "" else lines[0] + Concat(lines[1..])
  }

  /** Each line followed by a newline. */
  function Terminated(lines: seq<string>): string
    decreases |lines|
  {
    if |lines| == 0 then "" else lines[0] + "\n" + Terminated(lines[1..])
  }

  lemma {:induction false} JoinLinesSnoc(body: seq<string>, tag: string)
    ensures JoinLines(body + [tag]) == Terminated(body) + tag
    decreases |body|
  {
    if |body| > 0 {
      assert (body + [tag])[1..] == body[1..] + [tag];
      JoinLinesSnoc(body[1..], tag);
    } else {
      assert body + [tag] == [tag];
    }
  }

  lemma {:induction false} RemoveAllConcat(a: string, b: string, c: char)
    ensures RemoveAll(a + b, c) == RemoveAll(a, c) + RemoveAll(b, c)
    decreases |a|
  {
    if |a| > 0 {
      assert (a + b)[0] == a[0];
      assert (a + b)[1..] == a[1..] + b;
      RemoveAllConcat(a[1..], b, c);
    } else {
      assert a + b == b;
    }
  }

  lemma {:induction false} RemoveAllAbsent(s: string, c: char)
    requires c !in s
    ensures RemoveAll(s, c) == s
    decreases |s|
  {
    if |s| > 0 {
      assert c !in s[1..] by { assert forall i :: 0 <= i < |s| - 1 ==> s[1..][i] == s[i + 1]; }
      RemoveAllAbsent(s[1..], c);
    }
  }

  lemma {:induction false} RemoveNewlinesTerminated(body: seq<string>)
    requires forall k :: 0 <= k < |body| ==> NoBreak(body[k])
    ensures RemoveAll(Terminated(body), '\n') == Concat(body)
    decreases |body|
  {
    if |body| > 0 {
      RemoveNewlinesTerminated(body[1..]);
      assert '\n' !in body[0] by { assert NoBreak(body[0]); }
      RemoveAllConcat(body[0], "\n", '\n');
      RemoveAllConcat(body[0] + "\n", Terminated(body[1..]), '\n');
      RemoveAllAbsent(body[0], '\n');
    }
  }

  lemma JoinLinesCons(first: string, rest: seq<string>)
    requires |rest| > 0
    ensures JoinLines([first] + rest) == first + ("\n" + JoinLines(rest))
  {
    var ls := [first] + rest;
    assert ls[1..] == rest;
    assert ls[0] == first;
  }

  lemma OpeningNoBreak(tag: string)
    requires NoBreak(tag)
    ensures NoBreak("<<<" + tag)
  {
    var open := "<<<" + tag;
    assert forall i :: 3 <= i < |open| ==> open[i] == tag[i - 3];
  }

  /** The stored heredoc is its opening line, a newline, its terminated body
      lines and the closing tag; its first line is the opening. */
  lemma HeredocShape(tag: string, body: seq<string>)
    requires NoBreak(tag)
    ensures HeredocText(tag, body) == "<<<" + tag + ("\n" + Terminated(body) + tag)
    ensures SplitLines(HeredocText(tag, body))[0] == "<<<" + tag
  {
    var open := "<<<" + tag;
    var rest := body + [tag];
    assert [open] + body + [tag] == [open] + rest;
    JoinLinesCons(open, rest);
    JoinLinesSnoc(body, tag);
    var t := "\n" + Terminated(body) + tag;
    assert HeredocText(tag, body) == open + t;
    OpeningNoBreak(tag);
    SplitLinesPrefix(open, t);
    assert t[0] == '\n';
    assert SplitLines(t)[0] == "";
    assert open + "" == open;
  }

  /** A heredoc as the decoder stores it contributes exactly the characters
      of its body lines. */
  lemma UnwrapHeredoc(tag: string, body: seq<string>)
    requires NoBreak(tag) && forall k :: 0 <= k < |body| ==> NoBreak(body[k])
    ensures Unwrap(HeredocText(tag, body)) == Concat(body)
  {
    var open := "<<<" + tag;
    var inner := "\n" + Terminated(body);
    var v := HeredocText(tag, body);
    HeredocShape(tag, body);
    assert v == open + (inner + tag);
    UnwrapSteps(v, tag, inner);
    RemoveAllConcat("\n", Terminated(body), '\n');
    RemoveNewlinesTerminated(body);
  }

  lemma UnwrapSteps(v: string, tag: string, inner: string)
    requires v == "<<<" + tag + (inner + tag) && SplitLines(v)[0] == "<<<" + tag
    ensures Unwrap(v) == RemoveAll(inner, '\n')
  {
    var open := "<<<" + tag;
    assert IsHeredoc(v) by { assert v[..3] == open[..3]; }
    assert RemovePrefix(SplitLines(v)[0], "<<<") == tag;
    assert RemovePrefix(v, open) == inner + tag by { assert v[..|open|] == open; }
    assert RemoveSuffix(inner + tag, tag) == inner by {
      if |tag| > 0 { assert (inner + tag)[..|inner|] == inner; }
      else { assert inner + tag == inner; }
    }
  }
}
