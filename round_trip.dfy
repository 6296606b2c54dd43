/** Decoding what `encode()` writes gives the document back, for documents in
    the form the encoder can express: stripped headers, names, keys and plain
    values, keys that cannot be read as comments or section markers, no empty
    sections, and heredocs whose closing tag can be recognised. */
module RoundTrip {
  import opened Wrappers
  import opened Strings
  import opened OrderedDicts
  import opened Documents
  import opened Decoding
  import opened Encoding
  import Alphabets

  /** A key whose assignment line reads back as that key. */
  predicate CanonicalKey(key: string) {
    |key| > 0 && Stripped(key) && '=' !in key && key[0] != '#' && key[0] != '['
  }

  /** A heredoc the decoder reads back line for line. */
  predicate CanonicalHeredoc(tag: string, body: seq<string>) {
    Stripped(tag) && NoBreak(tag) && HeredocBody(tag, body)
    && forall k :: 0 <= k < |body| ==> NoBreak(body[k])
  }

  ghost predicate CanonicalValue(v: string) {
    (!IsHeredoc(v) && Stripped(v))
    || exists tag, body :: v == HeredocText(tag, body) && CanonicalHeredoc(tag, body)
  }

  /** Well-formed sections, none of them empty, with stripped names and
      entries the encoder writes out in a form the decoder reads back. */
  ghost predicate CanonicalSections(secs: Sections) {
    WellFormedSections(secs)
    && forall s :: s in secs ==>
         |s.1| > 0 && Stripped(s.0)
         && forall e :: e in s.1 ==> CanonicalKey(e.0) && CanonicalValue(e.1)
  }

  ghost predicate Canonical(d: Document) {
    (forall k :: 0 <= k < |d.headers| ==> Stripped(d.headers[k]))
    && CanonicalSections(d.sections)
  }

  /** The stripped form of the line `key = value`. */
  function AssignmentText(key: string, v: string): string {
    if |v| > 0 then key + " = " + v else key + " ="
  }

  lemma StripAssignment(key: string, v: string)
    requires CanonicalKey(key) && Stripped(v)
    ensures Strip(key + " = " + v) == AssignmentText(key, v)
  {
    var full := key + " = " + v;
    if |v| > 0 {
      assert full[0] == key[0] && full[|full| - 1] == v[|v| - 1];
      StripStripped(full);
    } else {
      assert full == "" + (key + " =") + " ";
      assert (key + " =")[0] == key[0];
      StripAround("", key + " =", " ");
    }
  }

  lemma SplitAssignmentText(key: string, v: string)
    requires CanonicalKey(key) && Stripped(v)
    ensures var m := AssignmentText(key, v);
      '=' in m && !IsBlankOrComment(m) && !IsSectionMarker(m) && SplitAssignment(m) == (key, v)
  {
    var m := AssignmentText(key, v);
    var i := AssignmentShape(key, v);
    assert m[..1] == [key[0]];
    StripAround("", key, " ");
    if |v| > 0 {
      StripAround(" ", v, "");
    }
  }

  /** Where the `=` of an assignment line stands, and what lies either side of it. */
  lemma AssignmentShape(key: string, v: string) returns (i: nat)
    requires CanonicalKey(key)
    ensures var m := AssignmentText(key, v);
      i == |key| + 1 && i < |m| && m[0] == key[0] && IndexOf(m, '=') == i
      && m[..i] == "" + key + " " && m[i + 1..] == (if |v| > 0 then " " + v + "" else "")
  {
    var m := AssignmentText(key, v);
    i := |key| + 1;
    assert m[i] == '=';
    assert forall j :: 0 <= j < |key| ==> m[j] == key[j];
    assert m[|key|] == ' ';
    assert m[..i] == "" + key + " ";
    if |v| > 0 {
      assert m[i + 1..] == " " + v + "";
    }
  }

  /** The stripped assignment line `key = value` splits back into its key and
      value. */
  lemma AssignmentLine(key: string, v: string)
    requires CanonicalKey(key) && Stripped(v)
    ensures var line := Strip(key + " = " + v);
      '=' in line && !IsBlankOrComment(line) && !IsSectionMarker(line)
      && SplitAssignment(line) == (key, v)
  {
    StripAssignment(key, v);
    SplitAssignmentText(key, v);
  }

  /** A section marker line reads back as its name. */
  lemma SectionMarkerLine(name: string)
    requires Stripped(name)
    ensures var line := Strip("[" + name + "]");
      !IsBlankOrComment(line) && IsSectionMarker(line) && SectionName(line) == name
  {
    var line := "[" + name + "]";
    assert line[0] == '[' && line[|line| - 1] == ']';
    StripStripped(line);
    assert line[..1] == "[";
    assert RemovePrefix(line, "[") == name + "]";
    assert RemoveSuffix(name + "]", "]") == name;
    StripStripped(name);
  }

  /** Storing a new key into the last section, which is the new one, appends
      the entry to it. */
  lemma StoreLast(secs: Sections, name: string, pre: Section, key: string, v: string)
    requires !HasKey(secs, name) && !HasKey(pre, key)
    ensures HasKey(secs + [(name, pre)], name)
    ensures Store(secs + [(name, pre)], name, key, v) == secs + [(name, pre + [(key, v)])]
  {
    PositionIs(secs + [(name, pre)], name, |secs|);
  }

  lemma DecodePlainEntry(lines: seq<string>, i: nat, secs: Sections, name: string, key: string, v: string)
    requires i < |lines| && lines[i] == key + " = " + v
    requires CanonicalKey(key) && Stripped(v) && !IsHeredoc(v) && HasKey(secs, name)
    ensures DecodeBody(lines, i, secs, Some(name)) == DecodeBody(lines, i + 1, Store(secs, name, key, v), Some(name))
  {
    AssignmentLine(key, v);
  }

  lemma HeredocOpening(tag: string)
    requires Stripped(tag)
    ensures Stripped("<<<" + tag) && IsHeredoc("<<<" + tag) && RemovePrefix("<<<" + tag, "<<<") == tag
  {
    var t := "<<<" + tag;
    assert t[0] == '<' && t[..3] == "<<<";
    assert |tag| > 0 ==> t[|t| - 1] == tag[|tag| - 1];
  }

  /** The body lines of a canonical heredoc are read back as they are, and the
      tag line at index `k` closes it. */
  lemma HeredocReadBack(lines: seq<string>, start: nat, tag: string, body: seq<string>, k: nat)
    requires CanonicalHeredoc(tag, body)
    requires k == start + |body| && k < |lines| && lines[start..k] == body && lines[k] == tag
    ensures HeredocEnd(lines, start, tag) == k
    ensures RStripAll(lines[start..k]) == body
  {
    StripStripped(tag);
    forall m | start <= m < k ensures Strip(lines[m]) != tag {
      assert lines[m] == body[m - start];
    }
    forall j | 0 <= j < |body| ensures RStrip(body[j]) == body[j] {
      RStripRStripped(body[j]);
    }
  }

  /** The heredoc opened at the value tail `<<<TAG` of line `i - 1` holds its
      body and ends after the tag line at index `k`. */
  lemma HeredocValueBack(lines: seq<string>, start: nat, tag: string, body: seq<string>, k: nat)
    requires CanonicalHeredoc(tag, body)
    requires k == start + |body| && k < |lines| && lines[start..k] == body && lines[k] == tag
    ensures HeredocValue(lines, start, "<<<" + tag) == (HeredocText(tag, body), k + 1)
  {
    HeredocOpening(tag);
    HeredocReadBack(lines, start, tag, body, k);
  }

  /** One turn of the body loop reads the assignment `key = <<<TAG` and the
      heredoc after it, which ends before index `n`. */
  lemma HeredocStep(lines: seq<string>, i: nat, secs: Sections, name: string, key: string,
                    tag: string, v: string, n: nat)
    requires CanonicalKey(key) && Stripped(tag) && HasKey(secs, name)
    requires i < |lines| && lines[i] == key + " = " + ("<<<" + tag)
    requires i + 1 <= |lines| && HeredocValue(lines, i + 1, "<<<" + tag) == (v, n)
    ensures DecodeBody(lines, i, secs, Some(name)) == DecodeBody(lines, n, Store(secs, name, key, v), Some(name))
  {
    HeredocOpening(tag);
    AssignmentLine(key, "<<<" + tag);
    HeredocAssignmentStep(lines, i, secs, name, key, "<<<" + tag);
    StepThen(lines, i, secs, Some(name), BodyStep(lines, i, secs, Some(name)));
  }

  /** One turn of the body loop on an assignment whose value tail opens a
      heredoc. */
  lemma HeredocAssignmentStep(lines: seq<string>, i: nat, secs: Sections, name: string, key: string, tail: string)
    requires i < |lines| && HasKey(secs, name)
    requires var line := Strip(lines[i]);
      '=' in line && !IsBlankOrComment(line) && !IsSectionMarker(line) && SplitAssignment(line) == (key, tail)
    requires IsHeredoc(tail)
    ensures var hv := HeredocValue(lines, i + 1, tail);
      BodyStep(lines, i, secs, Some(name)) == Next(hv.1, Store(secs, name, key, hv.0), Some(name))
  {
  }

  /** A turn of the body loop that goes on to the next line continues from
      the state it leaves. */
  lemma StepThen(lines: seq<string>, i: nat, secs: Sections, cur: Option<string>, st: Step)
    requires i < |lines| && (cur.Some? ==> HasKey(secs, cur.value))
    requires st == BodyStep(lines, i, secs, cur) && st.Next?
    ensures DecodeBody(lines, i, secs, cur) == DecodeBody(lines, st.next, st.secs, st.cur)
  {
  }

  lemma DecodeHeredocEntry(lines: seq<string>, i: nat, secs: Sections, name: string, key: string,
                           tag: string, body: seq<string>, n: nat)
    requires CanonicalKey(key) && CanonicalHeredoc(tag, body) && HasKey(secs, name)
    requires n == i + |body| + 2 && n <= |lines|
    requires lines[i] == key + " = " + ("<<<" + tag)
    requires lines[i + 1..n - 1] == body && lines[n - 1] == tag
    ensures DecodeBody(lines, i, secs, Some(name))
      == DecodeBody(lines, n, Store(secs, name, key, HeredocText(tag, body)), Some(name))
  {
    HeredocValueBack(lines, i + 1, tag, body, n - 1);
    HeredocStep(lines, i, secs, name, key, tag, HeredocText(tag, body), n);
  }

  /** A canonical heredoc splits back into its opening, body and tag lines. */
  lemma SplitHeredoc(tag: string, body: seq<string>)
    requires CanonicalHeredoc(tag, body)
    ensures IsHeredoc(HeredocText(tag, body))
    ensures SplitLines(HeredocText(tag, body)) == ["<<<" + tag] + body + [tag]
  {
    var ls := ["<<<" + tag] + body + [tag];
    Alphabets.OpeningNoBreak(tag);
    Alphabets.HeredocShape(tag, body);
    assert HeredocText(tag, body)[..3] == ("<<<" + tag)[..3];
    forall k | 0 <= k < |ls| ensures NoBreak(ls[k]) {
      if 0 < k < |ls| - 1 { assert ls[k] == body[k - 1]; }
    }
    SplitJoin(ls);
  }

  /** The receiver's own heredoc is written as `key = <<<TAG`, the body lines
      and the tag. */
  lemma EncodeOwnHeredoc(self: Sections, name: string, key: string, tag: string, body: seq<string>)
    requires Lookup(self, name, key) == Some(HeredocText(tag, body)) && CanonicalHeredoc(tag, body)
    ensures EncodeEntry(self, name, key, HeredocText(tag, body)) == Ok([key + " = " + ("<<<" + tag)] + body + [tag])
  {
    SplitHeredoc(tag, body);
    var ls := ["<<<" + tag] + body + [tag];
    var out := PrefixLines(key + " = ", "", ls);
    var want := [key + " = " + ("<<<" + tag)] + body + [tag];
    assert |out| == |want|;
    forall k | 0 <= k < |ls| ensures out[k] == want[k] {
      if k > 0 { assert "" + ls[k] == ls[k]; }
    }
    assert out == want;
  }

  /** Two consecutive blocks of lines found at `i`. */
  lemma SliceConcat(lines: seq<string>, i: nat, x: seq<string>, y: seq<string>)
    requires i + |x + y| <= |lines| && lines[i..i + |x + y|] == x + y
    ensures lines[i..i + |x|] == x && lines[i + |x|..i + |x| + |y|] == y
  {
    assert lines[i..i + |x|] == lines[i..i + |x + y|][..|x|];
    assert lines[i + |x|..i + |x| + |y|] == lines[i..i + |x + y|][|x|..];
  }

  lemma HeredocLinesAt(lines: seq<string>, j: nat, first: string, tag: string, body: seq<string>, n: nat)
    requires n == j + |body| + 2 && n <= |lines| && lines[j..n] == [first] + body + [tag]
    ensures lines[j] == first && lines[j + 1..n - 1] == body && lines[n - 1] == tag
  {
    SliceConcat(lines, j, [first], body + [tag]);
    SliceConcat(lines, j + 1, body, [tag]);
  }

  /** One encoded entry of the receiver's own reads back as that entry; `n`
      is the index after its lines. */
  lemma DecodeEntry(lines: seq<string>, j: nat, secs: Sections, self: Sections, name: string,
                    key: string, v: string, e: seq<string>, n: nat)
    requires Lookup(self, name, key) == Some(v) && CanonicalKey(key) && CanonicalValue(v) && HasKey(secs, name)
    requires EncodeEntry(self, name, key, v) == Ok(e) && n == j + |e| && n <= |lines| && lines[j..n] == e
    ensures DecodeBody(lines, j, secs, Some(name)) == DecodeBody(lines, n, Store(secs, name, key, v), Some(name))
  {
    if IsHeredoc(v) {
      var tag, body :| v == HeredocText(tag, body) && CanonicalHeredoc(tag, body);
      EncodeOwnHeredoc(self, name, key, tag, body);
      assert e == [key + " = " + ("<<<" + tag)] + body + [tag];
      HeredocLinesAt(lines, j, key + " = " + ("<<<" + tag), tag, body, n);
      DecodeHeredocEntry(lines, j, secs, name, key, tag, body, n);
    } else {
      assert lines[j] == e[0];
      DecodePlainEntry(lines, j, secs, name, key, v);
    }
  }

  /** Reading one more entry into the new last section appends it: `post` is
      that section afterwards and `n` the index after the entry's lines. */
  lemma EntryStep(lines: seq<string>, j: nat, self: Sections, secs: Sections, name: string,
                  pre: Section, key: string, v: string, e: seq<string>, post: Section, n: nat)
    requires !HasKey(secs, name) && !HasKey(pre, key) && post == pre + [(key, v)]
    requires Lookup(self, name, key) == Some(v) && CanonicalKey(key) && CanonicalValue(v)
    requires EncodeEntry(self, name, key, v) == Ok(e) && n == j + |e| <= |lines| && lines[j..n] == e
    ensures HasKey(secs + [(name, pre)], name) && HasKey(secs + [(name, post)], name)
    ensures DecodeBody(lines, j, secs + [(name, pre)], Some(name))
      == DecodeBody(lines, n, secs + [(name, post)], Some(name))
  {
    StoreLast(secs, name, pre, key, v);
    PositionIs(secs + [(name, post)], name, |secs|);
    DecodeEntry(lines, j, secs + [(name, pre)], self, name, key, v, e, n);
  }

  /** The section `name` of `self` holds exactly the canonical entries of `sec`. */
  ghost predicate OwnSection(self: Sections, name: string, sec: Section) {
    Unique(sec)
    && forall k :: 0 <= k < |sec| ==>
         CanonicalKey(sec[k].0) && CanonicalValue(sec[k].1) && Lookup(self, name, sec[k].0) == Some(sec[k].1)
  }

  /** The encoded entries of `sec[..m]` are those of `sec[..m - 1]` followed
      by those of `sec[m - 1]`. */
  lemma EncodeEntriesSnoc(self: Sections, name: string, sec: Section, m: nat)
    requires 0 < m <= |sec| && EncodeEntries(self, name, sec[..m]).Ok?
    ensures EncodeEntries(self, name, sec[..m - 1]).Ok?
    ensures EncodeEntry(self, name, sec[m - 1].0, sec[m - 1].1).Ok?
    ensures EncodeEntries(self, name, sec[..m]).value
      == EncodeEntries(self, name, sec[..m - 1]).value + EncodeEntry(self, name, sec[m - 1].0, sec[m - 1].1).value
  {
    assert sec[..m][..m - 1] == sec[..m - 1];
  }

  /** In a dictionary with distinct keys, the key of `d[m - 1]` is not among
      the earlier ones. */
  lemma UniqueLast<V>(d: Dict<V>, m: nat)
    requires Unique(d) && 0 < m <= |d|
    ensures !HasKey(d[..m - 1], d[m - 1].0) && d[..m] == d[..m - 1] + [d[m - 1]]
  {
  }

  /** The encoded entries of a section, read into a new last section, give
      that section's entries back. */
  lemma {:induction false} DecodeEntries(lines: seq<string>, i: nat, self: Sections, secs: Sections,
                                         name: string, sec: Section, m: nat, b: seq<string>, n: nat,
                                         post: Sections)
    requires m <= |sec| && OwnSection(self, name, sec) && !HasKey(secs, name)
    requires EncodeEntries(self, name, sec[..m]) == Ok(b) && n == i + |b| <= |lines| && lines[i..n] == b
    requires post == secs + [(name, sec[..m])]
    ensures HasKey(secs + [(name, [])], name) && HasKey(post, name)
    ensures DecodeBody(lines, i, secs + [(name, [])], Some(name)) == DecodeBody(lines, n, post, Some(name))
    decreases m
  {
    PositionIs(secs + [(name, [])], name, |secs|);
    if m == 0 {
      assert sec[..0] == [];
      assert b == [];
    } else {
      var pre, key, v, b', e := EntriesSplit(self, name, sec, m, b);
      var j := i + |b'|;
      SliceSplit(lines, i, b', e, j, n);
      DecodeEntries(lines, i, self, secs, name, sec, m - 1, b', j, secs + [(name, pre)]);
      EntryStep(lines, j, self, secs, name, pre, key, v, e, sec[..m], n);
    }
  }

  /** The first `m` entries of a section are the first `m - 1`, `pre`, and
      the `m`-th, `key` holding `v`, and so are their encoded lines. */
  lemma EntriesSplit(self: Sections, name: string, sec: Section, m: nat, b: seq<string>)
    returns (pre: Section, key: string, v: string, b': seq<string>, e: seq<string>)
    requires 0 < m <= |sec| && OwnSection(self, name, sec) && EncodeEntries(self, name, sec[..m]) == Ok(b)
    ensures pre == sec[..m - 1] && sec[..m] == pre + [(key, v)] && !HasKey(pre, key)
    ensures Lookup(self, name, key) == Some(v) && CanonicalKey(key) && CanonicalValue(v)
    ensures EncodeEntries(self, name, pre) == Ok(b') && EncodeEntry(self, name, key, v) == Ok(e) && b == b' + e
  {
    EncodeEntriesSnoc(self, name, sec, m);
    UniqueLast(sec, m);
    pre, key, v := sec[..m - 1], sec[m - 1].0, sec[m - 1].1;
    b' := EncodeEntries(self, name, pre).value;
    e := EncodeEntry(self, name, key, v).value;
  }

  /** A blank or comment line changes nothing. */
  lemma SkipLine(lines: seq<string>, k: nat, secs: Sections, cur: Option<string>, n: nat)
    requires n == k + 1 <= |lines| && IsBlankOrComment(Strip(lines[k]))
    requires cur.Some? ==> HasKey(secs, cur.value)
    ensures DecodeBody(lines, k, secs, cur) == DecodeBody(lines, n, secs, cur)
  {
  }

  /** The marker of a section not read yet appends it, empty, and makes it
      the current one. */
  lemma MarkerStep(lines: seq<string>, k: nat, secs: Sections, cur: Option<string>, name: string, n: nat)
    requires n == k + 1 <= |lines| && lines[k] == "[" + name + "]" && Stripped(name) && !HasKey(secs, name)
    requires cur.Some? ==> HasKey(secs, cur.value)
    ensures HasKey(secs + [(name, [])], name)
    ensures DecodeBody(lines, k, secs, cur) == DecodeBody(lines, n, secs + [(name, [])], Some(name))
  {
    SectionMarkerLine(name);
    PositionIs(secs + [(name, [])], name, |secs|);
  }

  /** One encoded section of the receiver's own, not read yet, reads back as
      that section. */
  lemma DecodeSection(lines: seq<string>, i: nat, self: Sections, secs: Sections, cur: Option<string>,
                      name: string, sec: Section, blk: seq<string>, n: nat, post: Sections)
    requires OwnSection(self, name, sec) && |sec| > 0 && Stripped(name) && !HasKey(secs, name)
    requires cur.Some? ==> HasKey(secs, cur.value)
    requires EncodeSection(self, name, sec) == Ok(blk) && n == i + |blk| <= |lines| && lines[i..n] == blk
    requires post == secs + [(name, sec)]
    ensures HasKey(post, name)
    ensures DecodeBody(lines, i, secs, cur) == DecodeBody(lines, n, post, Some(name))
  {
    var b := SectionLines(lines, i, self, name, sec, blk, n);
    var j, k := i + 1, i + 1 + |b|;
    MarkerStep(lines, i, secs, cur, name, j);
    assert sec[..|sec|] == sec;
    DecodeEntries(lines, j, self, secs, name, sec, |sec|, b, k, post);
    SkipLine(lines, k, post, Some(name), n);
  }

  /** Where the marker, the entries and the blank line of an encoded section
      stand. */
  lemma SectionLines(lines: seq<string>, i: nat, self: Sections, name: string, sec: Section, blk: seq<string>, n: nat)
    returns (b: seq<string>)
    requires |sec| > 0
    requires EncodeSection(self, name, sec) == Ok(blk) && n == i + |blk| <= |lines| && lines[i..n] == blk
    ensures EncodeEntries(self, name, sec) == Ok(b) && n == i + 1 + |b| + 1
    ensures lines[i] == "[" + name + "]" && lines[i + 1..i + 1 + |b|] == b && IsBlankOrComment(Strip(lines[n - 1]))
  {
    b := EncodeEntries(self, name, sec).value;
    assert blk == ["[" + name + "]"] + b + [""];
    SliceConcat(lines, i, ["[" + name + "]"] + b, [""]);
    SliceConcat(lines, i, ["[" + name + "]"], b);
    assert lines[n - 1] == "";
  }

  /** Each section of canonical sections holds exactly its own entries. */
  lemma OwnSectionAt(self: Sections, k: nat)
    requires CanonicalSections(self) && k < |self|
    ensures OwnSection(self, self[k].0, self[k].1) && |self[k].1| > 0 && Stripped(self[k].0)
  {
    LookupOwnEntries(self);
    var s := self[k];
    assert s in self;
    forall j | 0 <= j < |s.1|
      ensures CanonicalKey(s.1[j].0) && CanonicalValue(s.1[j].1) && Lookup(self, s.0, s.1[j].0) == Some(s.1[j].1)
    {
      assert s.1[j] in s.1;
    }
  }

  /** The encoded sections of `source[..m]` are those of `source[..m - 1]`
      followed by those of `source[m - 1]`. */
  lemma EncodeSectionsSnoc(self: Sections, source: Sections, m: nat)
    requires 0 < m <= |source| && EncodeSections(self, source[..m]).Ok?
    ensures EncodeSections(self, source[..m - 1]).Ok?
    ensures EncodeSection(self, source[m - 1].0, source[m - 1].1).Ok?
    ensures EncodeSections(self, source[..m]).value
      == EncodeSections(self, source[..m - 1]).value + EncodeSection(self, source[m - 1].0, source[m - 1].1).value
  {
    assert source[..m][..m - 1] == source[..m - 1];
  }

  /** The current section after reading the first `m` sections. */
  function CurrentAfter(secs: Sections, m: nat): Option<string>
    requires m <= |secs|
  {
    if m == 0 then None else Some(secs[m - 1].0)
  }

  /** The encoded first `m` sections of the receiver's own, `done`, read back
      as those sections, the last of them, `cur`, current. */
  lemma {:induction false} DecodeSections(lines: seq<string>, i: nat, self: Sections, m: nat, b: seq<string>, n: nat,
                                          done: Sections, cur: Option<string>)
    requires CanonicalSections(self) && m <= |self| && done == self[..m] && cur == CurrentAfter(self, m)
    requires EncodeSections(self, done) == Ok(b) && n == i + |b| <= |lines| && lines[i..n] == b
    ensures cur.Some? ==> HasKey(done, cur.value)
    ensures DecodeBody(lines, i, [], None) == DecodeBody(lines, n, done, cur)
    decreases m
  {
    if m == 0 {
      assert b == [];
    } else {
      var b', j, pre, cur', name, sec, blk := SectionsLines(lines, i, self, m, b, n, done);
      DecodeSections(lines, i, self, m - 1, b', j, pre, cur');
      SectionsStep(lines, i, j, self, pre, cur', name, sec, blk, n, done);
    }
  }

  /** Reading the first `m - 1` sections up to index `j` and then the `m`-th
      section reads the first `m`. */
  lemma SectionsStep(lines: seq<string>, i: nat, j: nat, self: Sections, pre: Sections, cur: Option<string>,
                     name: string, sec: Section, blk: seq<string>, n: nat, done: Sections)
    requires i <= j && (cur.Some? ==> HasKey(pre, cur.value))
    requires OwnSection(self, name, sec) && |sec| > 0 && Stripped(name) && !HasKey(pre, name)
    requires EncodeSection(self, name, sec) == Ok(blk) && n == j + |blk| <= |lines| && lines[j..n] == blk
    requires done == pre + [(name, sec)]
    requires DecodeBody(lines, i, [], None) == DecodeBody(lines, j, pre, cur)
    ensures HasKey(done, name)
    ensures DecodeBody(lines, i, [], None) == DecodeBody(lines, n, done, Some(name))
  {
    DecodeSection(lines, j, self, pre, cur, name, sec, blk, n, done);
  }

  /** Where the first `m - 1` encoded sections, `pre`, end (`j`), and what the
      `m`-th section, `name` holding `sec`, brings. */
  lemma SectionsLines(lines: seq<string>, i: nat, self: Sections, m: nat, b: seq<string>, n: nat, done: Sections)
    returns (b': seq<string>, j: nat, pre: Sections, cur: Option<string>, name: string, sec: Section, blk: seq<string>)
    requires CanonicalSections(self) && 0 < m <= |self| && done == self[..m]
    requires EncodeSections(self, done) == Ok(b) && n == i + |b| <= |lines| && lines[i..n] == b
    ensures pre == self[..m - 1] && cur == CurrentAfter(self, m - 1) && CurrentAfter(self, m) == Some(name)
    ensures EncodeSections(self, pre) == Ok(b') && j == i + |b'| && j <= n && lines[i..j] == b'
    ensures EncodeSection(self, name, sec) == Ok(blk) && n == j + |blk| && lines[j..n] == blk
    ensures OwnSection(self, name, sec) && |sec| > 0 && Stripped(name)
    ensures !HasKey(pre, name) && done == pre + [(name, sec)]
  {
    pre, name, sec, b', blk := SectionsSplit(self, m, done, b);
    cur := CurrentAfter(self, m - 1);
    j := i + |b'|;
    SliceSplit(lines, i, b', blk, j, n);
  }

  /** The first `m` sections are the first `m - 1`, `pre`, and the `m`-th,
      `name` holding `sec`, and so are their encoded lines. */
  lemma SectionsSplit(self: Sections, m: nat, done: Sections, b: seq<string>)
    returns (pre: Sections, name: string, sec: Section, b': seq<string>, blk: seq<string>)
    requires CanonicalSections(self) && 0 < m <= |self| && done == self[..m] && EncodeSections(self, done) == Ok(b)
    ensures pre == self[..m - 1] && CurrentAfter(self, m) == Some(name)
    ensures EncodeSections(self, pre) == Ok(b') && EncodeSection(self, name, sec) == Ok(blk) && b == b' + blk
    ensures OwnSection(self, name, sec) && |sec| > 0 && Stripped(name)
    ensures !HasKey(pre, name) && done == pre + [(name, sec)]
  {
    EncodeSectionsSnoc(self, self, m);
    UniqueLast(self, m);
    OwnSectionAt(self, m - 1);
    pre, name, sec := self[..m - 1], self[m - 1].0, self[m - 1].1;
    b' := EncodeSections(self, pre).value;
    blk := EncodeSection(self, name, sec).value;
  }

  /** Two consecutive blocks of lines between `i`, `j` and `n`. */
  lemma SliceSplit(lines: seq<string>, i: nat, x: seq<string>, y: seq<string>, j: nat, n: nat)
    requires j == i + |x| && n == j + |y| && n <= |lines| && lines[i..n] == x + y
    ensures lines[i..j] == x && lines[j..n] == y
  {
    assert lines[i..j] == lines[i..n][..|x|];
    assert lines[j..n] == lines[i..n][|x|..];
  }

  /** A header comment `# h` is a comment to the body phase and reads back
      as `h` in the header phase. */
  lemma CommentLine(h: string)
    requires Stripped(h)
    ensures IsHeaderLine("# " + h) && IsBlankOrComment(Strip("# " + h)) && HeaderText("# " + h) == h
  {
    var line := "# " + h;
    if |h| > 0 {
      assert line[0] == '#' && line[|line| - 1] == h[|h| - 1];
      StripStripped(line);
      assert line[..1] == "#";
      assert RemovePrefix(line, "#") == " " + h + "";
      StripAround(" ", h, "");
    } else {
      assert line == "" + "#" + " ";
      StripAround("", "#", " ");
      assert RemovePrefix("#", "#") == "" + "" + "";
      StripAround("", "", "");
    }
  }

  /** Lines that are blank or comments to the body phase change nothing. */
  lemma {:induction false} SkipLines(lines: seq<string>, i: nat, n: nat, secs: Sections, cur: Option<string>)
    requires i <= n <= |lines| && (cur.Some? ==> HasKey(secs, cur.value))
    requires forall t :: i <= t < n ==> IsBlankOrComment(Strip(lines[t]))
    ensures DecodeBody(lines, i, secs, cur) == DecodeBody(lines, n, secs, cur)
    decreases n - i
  {
    if i < n {
      var j := i + 1;
      SkipLine(lines, i, secs, cur, j);
      SkipLines(lines, j, n, secs, cur);
    }
  }

  /** The header comments followed by a blank line read back as the headers. */
  lemma HeadersBack(lines: seq<string>, hs: seq<string>)
    requires forall k :: 0 <= k < |hs| ==> Stripped(hs[k])
    requires |hs| < |lines| && lines[..|hs| + 1] == Encoding.HeaderComments(hs) + [""]
    ensures Headers(lines) == hs
    ensures forall t :: 0 <= t < |hs| + 1 ==> IsBlankOrComment(Strip(lines[t]))
  {
    var top := lines[..|hs| + 1];
    forall t | 0 <= t < |hs| + 1
      ensures IsBlankOrComment(Strip(lines[t])) && (t < |hs| ==> IsHeaderLine(lines[t]) && HeaderText(lines[t]) == hs[t])
    {
      assert lines[t] == top[t];
      if t < |hs| {
        CommentLine(hs[t]);
      }
    }
    assert lines[|hs|] == top[|hs|] == "";
    HeadersExact(lines, hs);
  }

  /** The header phase reads exactly `hs` when the lines before index `|hs|`
      are header lines giving `hs` and the line at `|hs|` is not one. */
  lemma {:induction false} HeadersExact(lines: seq<string>, hs: seq<string>)
    requires |hs| < |lines| && !IsHeaderLine(lines[|hs|])
    requires forall t :: 0 <= t < |hs| ==> IsHeaderLine(lines[t]) && HeaderText(lines[t]) == hs[t]
    ensures Headers(lines) == hs
    decreases |hs|
  {
    if |hs| > 0 {
      var rest := lines[1..];
      assert rest[|hs| - 1] == lines[|hs|];
      assert forall t :: 0 <= t < |hs| - 1 ==> rest[t] == lines[t + 1];
      HeadersExact(rest, hs[1..]);
      assert IsHeaderLine(lines[0]);
    }
  }

  /** `Aseini.decode(ini.encode())` gives back `ini` for a canonical document:
      the same headers and the same sections, entries and values, in the same
      order. */
  lemma DecodeEncode(d: Document)
    requires Canonical(d)
    ensures Encode(d, d).Ok? && Decode(Encode(d, d).value) == Ok(d)
  {
    EncodeSelfSucceeds(d);
    var lines := Encode(d, d).value;
    var hs, self := d.headers, d.sections;
    var body := EncodeSections(self, self).value;
    var i, n := |hs| + 1, |lines|;
    EncodedLayout(hs, body, lines, i, n);
    HeadersBack(lines, hs);
    HeaderPhase(lines, i);
    assert self[..|self|] == self;
    DecodeSections(lines, i, self, |self|, body, n, self, CurrentAfter(self, |self|));
  }

  /** Where the header comments, the blank line and the sections stand in the
      encoded lines. */
  lemma EncodedLayout(hs: seq<string>, body: seq<string>, lines: seq<string>, i: nat, n: nat)
    requires lines == HeaderComments(hs) + [""] + body && i == |hs| + 1 && n == |lines|
    ensures i <= n && lines[..i] == HeaderComments(hs) + [""] && lines[i..n] == body
  {
  }

  /** The body loop passes over the first `i` lines when they are all blank
      or comments. */
  lemma HeaderPhase(lines: seq<string>, i: nat)
    requires i <= |lines| && forall t :: 0 <= t < i ==> IsBlankOrComment(Strip(lines[t]))
    ensures DecodeBody(lines, 0, [], None) == DecodeBody(lines, i, [], None)
  {
    SkipLines(lines, 0, i, [], None);
  }

  /** `Aseini.decode_str(ini.encode_str())` gives back `ini` for a canonical
      document whose headers, names, keys and plain values hold no line break. */
  lemma DecodeStrEncodeStr(d: Document)
    requires Canonical(d) && SingleLine(d.sections)
    requires forall k :: 0 <= k < |d.headers| ==> NoBreak(d.headers[k])
    ensures EncodeStr(d, d).Ok? && DecodeStr(EncodeStr(d, d).value) == Ok(d)
  {
    EncodeSelfSucceeds(d);
    EncodeStrSplits(d, d);
    DecodeEncode(d);
  }
}
