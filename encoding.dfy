/** `Aseini.encode(source)`: the receiver's headers, then the source document's
    sections and keys in the source's order, each key with the receiver's value
    or, where the receiver lacks it, a `# TODO #` comment carrying the source's. */
module Encoding {
  import opened Wrappers
  import opened Strings
  import opened OrderedDicts
  import opened Documents

  /** `AssertionError("value type incorrect: 'section.key'")`. */
  datatype EncodeError = ValueTypeIncorrect(section: string, key: string)

  /** `# {header}` for each header. */
  function HeaderComments(headers: seq<string>): seq<string> {
    seq(|headers|, i requires 0 <= i < |headers| => "# " + headers[i])
  }

  /** The lines of a value, the first one after `first` and every other one
      after `other`: the `enumerate(re.split(...))` loops. */
  function PrefixLines(first: string, other: string, lines: seq<string>): seq<string> {
    seq(|lines|, i requires 0 <= i < |lines| => (if i == 0 then first else other) + lines[i])
  }

  /** The receiver has the key, but its value's kind differs from the source's. */
  predicate Mismatch(self: Sections, name: string, key: string, sourceValue: string) {
    var value := Lookup(self, name, key);
    value.Some? && IsHeredoc(value.value) != IsHeredoc(sourceValue)
  }

  /** The lines one source key produces. */
  function EncodeEntry(self: Sections, name: string, key: string, sourceValue: string)
    : Result<seq<string>, EncodeError>
  {
    var value := Lookup(self, name, key);
    if IsHeredoc(sourceValue) then
      if value.None? then Ok(PrefixLines("# TODO # " + key + " = ", "# TODO # ", SplitLines(sourceValue)))
      else if !IsHeredoc(value.value) then Err(ValueTypeIncorrect(name, key))
      else Ok(PrefixLines(key + " = ", "", SplitLines(value.value)))
    else
      if value.None? then Ok(["# TODO # " + key + " = " + sourceValue])
      else if IsHeredoc(value.value) then Err(ValueTypeIncorrect(name, key))
      else Ok([key + " = " + value.value])
  }

  /** The entry lines of the source section `name`, key by key. */
  function EncodeEntries(self: Sections, name: string, sec: Section): Result<seq<string>, EncodeError>
    decreases |sec|
  {
    if |sec| == 0 then Ok([])
    else
      match EncodeEntries(self, name, sec[..|sec| - 1])
      case Err(e) => Err(e)
      case Ok(prev) =>
        match EncodeEntry(self, name, sec[|sec| - 1].0, sec[|sec| - 1].1)
        case Err(e) => Err(e)
        case Ok(lines) => Ok(prev + lines)
  }

  /** An empty source section produces nothing; any other produces its marker,
      its entries and a blank line. */
  function EncodeSection(self: Sections, name: string, sec: Section): Result<seq<string>, EncodeError> {
    if |sec| == 0 then Ok([])
    else
      match EncodeEntries(self, name, sec)
      case Err(e) => Err(e)
      case Ok(lines) => Ok(["[" + name + "]"] + lines + [""])
  }

  function EncodeSections(self: Sections, source: Sections): Result<seq<string>, EncodeError>
    decreases |source|
  {
    if |source| == 0 then Ok([])
    else
      match EncodeSections(self, source[..|source| - 1])
      case Err(e) => Err(e)
      case Ok(prev) =>
        match EncodeSection(self, source[|source| - 1].0, source[|source| - 1].1)
        case Err(e) => Err(e)
        case Ok(lines) => Ok(prev + lines)
  }

  /** `self.encode(source)`: a list of lines. */
  function Encode(self: Document, source: Document): Result<seq<string>, EncodeError> {
    match EncodeSections(self.sections, source.sections)
    case Err(e) => Err(e)
    case Ok(body) => Ok(HeaderComments(self.headers) + [""] + body)
  }

  /** `self.encode_str(source)`: the lines joined by newlines. */
  function EncodeStr(self: Document, source: Document): Result<string, EncodeError> {
    match Encode(self, source)
    case Err(e) => Err(e)
    case Ok(lines) => Ok(JoinLines(lines))
  }

  /** One more source section appends its lines. */
  lemma EncodeSectionsNext(self: Sections, source: Sections, i: nat)
    requires i < |source| && EncodeSections(self, source[..i]).Ok?
    requires EncodeSection(self, source[i].0, source[i].1).Ok?
    ensures EncodeSections(self, source[..i + 1])
      == Ok(EncodeSections(self, source[..i]).value + EncodeSection(self, source[i].0, source[i].1).value)
  {
    assert source[..i + 1][..i] == source[..i];
  }

  /** Once a prefix of a section fails, the whole section fails the same way:
      the first mismatch in source order is the one reported. */
  lemma {:induction false} EncodeEntriesFailFirst(self: Sections, name: string, sec: Section, j: nat)
    requires j <= |sec| && EncodeEntries(self, name, sec[..j]).Err?
    ensures EncodeEntries(self, name, sec) == EncodeEntries(self, name, sec[..j])
    decreases |sec|
  {
    if j < |sec| {
      var n := |sec| - 1;
      assert sec[..n][..j] == sec[..j];
      EncodeEntriesFailFirst(self, name, sec[..n], j);
    } else {
      assert sec[..j] == sec;
    }
  }

  /** The first section whose entries fail decides the result. */
  lemma EncodeSectionsStop(self: Sections, source: Sections, i: nat)
    requires i < |source| && EncodeSections(self, source[..i]).Ok?
    requires EncodeSection(self, source[i].0, source[i].1).Err?
    ensures EncodeSections(self, source) == EncodeSection(self, source[i].0, source[i].1)
  {
    assert source[..i + 1][..i] == source[..i];
    EncodeSectionsFailFirst(self, source, i + 1);
  }

  lemma {:induction false} EncodeSectionsFailFirst(self: Sections, source: Sections, i: nat)
    requires i <= |source| && EncodeSections(self, source[..i]).Err?
    ensures EncodeSections(self, source) == EncodeSections(self, source[..i])
    decreases |source|
  {
    if i < |source| {
      var n := |source| - 1;
      assert source[..n][..i] == source[..i];
      EncodeSectionsFailFirst(self, source[..n], i);
    } else {
      assert source[..i] == source;
    }
  }

  lemma {:induction false} EncodeEntriesFails(self: Sections, name: string, sec: Section)
    ensures EncodeEntries(self, name, sec).Err?
      <==> exists e :: e in sec && Mismatch(self, name, e.0, e.1)
    decreases |sec|
  {
    if |sec| > 0 {
      var n := |sec| - 1;
      EncodeEntriesFails(self, name, sec[..n]);
      assert sec == sec[..n] + [sec[n]];
      assert forall e :: e in sec <==> e in sec[..n] || e == sec[n];
    }
  }

  lemma {:induction false} EncodeSectionsFails(self: Sections, source: Sections)
    ensures EncodeSections(self, source).Err?
      <==> exists s, e :: s in source && e in s.1 && Mismatch(self, s.0, e.0, e.1)
    decreases |source|
  {
    if |source| > 0 {
      var n := |source| - 1;
      EncodeSectionsFails(self, source[..n]);
      EncodeEntriesFails(self, source[n].0, source[n].1);
      assert source == source[..n] + [source[n]];
      assert forall s :: s in source <==> s in source[..n] || s == source[n];
    }
  }

  /** A failing section reports its first mismatching key: the error names
      that key, the receiver's value there has the other kind, and every key
      before it matches. */
  lemma {:induction false} EncodeEntriesFirstError(self: Sections, name: string, sec: Section) returns (j: nat)
    requires EncodeEntries(self, name, sec).Err?
    ensures j < |sec| && Mismatch(self, name, sec[j].0, sec[j].1)
    ensures EncodeEntries(self, name, sec).error == ValueTypeIncorrect(name, sec[j].0)
    ensures forall i :: 0 <= i < j ==> !Mismatch(self, name, sec[i].0, sec[i].1)
    decreases |sec|
  {
    var n := |sec| - 1;
    var init := sec[..n];
    if EncodeEntries(self, name, init).Err? {
      j := EncodeEntriesFirstError(self, name, init);
      assert init[j] == sec[j];
      forall i | 0 <= i < j ensures !Mismatch(self, name, sec[i].0, sec[i].1) {
        assert init[i] == sec[i];
      }
    } else {
      j := n;
      EncodeEntriesFails(self, name, init);
      forall i | 0 <= i < j ensures !Mismatch(self, name, sec[i].0, sec[i].1) {
        assert init[i] == sec[i];
        assert init[i] in init;
      }
    }
  }

  /** Encoding reports the first mismatch in source order: every entry of
      every earlier section matches, and so does every earlier entry of the
      section that fails. */
  lemma {:induction false} EncodeSectionsFirstError(self: Sections, source: Sections) returns (i: nat, j: nat)
    requires EncodeSections(self, source).Err?
    ensures i < |source| && j < |source[i].1|
    ensures Mismatch(self, source[i].0, source[i].1[j].0, source[i].1[j].1)
    ensures EncodeSections(self, source).error == ValueTypeIncorrect(source[i].0, source[i].1[j].0)
    ensures forall k :: 0 <= k < j ==> !Mismatch(self, source[i].0, source[i].1[k].0, source[i].1[k].1)
    ensures forall k, e :: 0 <= k < i && e in source[k].1 ==> !Mismatch(self, source[k].0, e.0, e.1)
    decreases |source|
  {
    var n := |source| - 1;
    var init := source[..n];
    if EncodeSections(self, init).Err? {
      i, j := EncodeSectionsFirstError(self, init);
      assert init[i] == source[i];
      forall k, e | 0 <= k < i && e in source[k].1 ensures !Mismatch(self, source[k].0, e.0, e.1) {
        assert init[k] == source[k];
      }
    } else {
      i := n;
      j := EncodeEntriesFirstError(self, source[n].0, source[n].1);
      EncodeSectionsFails(self, init);
      forall k, e | 0 <= k < i && e in source[k].1 ensures !Mismatch(self, source[k].0, e.0, e.1) {
        assert init[k] == source[k];
        assert init[k] in init;
      }
    }
  }

  /** Encoding fails exactly when some source key is present in the receiver
      with a value of the other kind (heredoc against plain or plain against
      heredoc). */
  lemma EncodeFails(self: Document, source: Document)
    ensures Encode(self, source).Err?
      <==> exists s, e :: s in source.sections && e in s.1 && Mismatch(self.sections, s.0, e.0, e.1)
  {
    EncodeSectionsFails(self.sections, source.sections);
  }

  /** Every line of every entry ends up in the section's lines. */
  lemma {:induction false} EncodeEntriesContain(self: Sections, name: string, sec: Section, e: (string, string))
    requires EncodeEntries(self, name, sec).Ok? && e in sec
    ensures EncodeEntry(self, name, e.0, e.1).Ok?
    ensures forall l :: l in EncodeEntry(self, name, e.0, e.1).value ==> l in EncodeEntries(self, name, sec).value
    decreases |sec|
  {
    var n := |sec| - 1;
    assert sec == sec[..n] + [sec[n]];
    if e in sec[..n] {
      EncodeEntriesContain(self, name, sec[..n], e);
    }
  }

  lemma {:induction false} EncodeSectionsContain(self: Sections, source: Sections, s: (string, Section))
    requires EncodeSections(self, source).Ok? && s in source
    ensures EncodeSection(self, s.0, s.1).Ok?
    ensures forall l :: l in EncodeSection(self, s.0, s.1).value ==> l in EncodeSections(self, source).value
    decreases |source|
  {
    var n := |source| - 1;
    assert source == source[..n] + [source[n]];
    if s in source[..n] {
      EncodeSectionsContain(self, source[..n], s);
    }
  }

  /** Where the receiver lacks a plain source key, the output carries the
      `# TODO # key = value` line; where it has it, `key = value` with its own
      value. */
  lemma EncodePlainEntry(self: Document, source: Document, s: (string, Section), e: (string, string))
    requires Encode(self, source).Ok? && s in source.sections && e in s.1 && !IsHeredoc(e.1)
    ensures Lookup(self.sections, s.0, e.0).None? ==> "# TODO # " + e.0 + " = " + e.1 in Encode(self, source).value
    ensures Lookup(self.sections, s.0, e.0).Some? ==>
      !IsHeredoc(Lookup(self.sections, s.0, e.0).value)
      && e.0 + " = " + Lookup(self.sections, s.0, e.0).value in Encode(self, source).value
  {
    EncodeSectionsContain(self.sections, source.sections, s);
    EncodeEntriesContain(self.sections, s.0, s.1, e);
  }

  /** Where the receiver lacks a heredoc source key, every line of the source's
      heredoc is carried behind `# TODO # `, the first one also behind `key = `. */
  lemma EncodeHeredocTodo(self: Document, source: Document, s: (string, Section), e: (string, string))
    requires Encode(self, source).Ok? && s in source.sections && e in s.1 && IsHeredoc(e.1)
    requires Lookup(self.sections, s.0, e.0).None?
    ensures "# TODO # " + e.0 + " = " + SplitLines(e.1)[0] in Encode(self, source).value
    ensures forall i :: 1 <= i < |SplitLines(e.1)| ==> "# TODO # " + SplitLines(e.1)[i] in Encode(self, source).value
  {
    EncodeSectionsContain(self.sections, source.sections, s);
    EncodeEntriesContain(self.sections, s.0, s.1, e);
    var ls := PrefixLines("# TODO # " + e.0 + " = ", "# TODO # ", SplitLines(e.1));
    assert ls[0] in ls;
    forall i | 1 <= i < |SplitLines(e.1)| ensures "# TODO # " + SplitLines(e.1)[i] in ls {
      assert ls[i] == "# TODO # " + SplitLines(e.1)[i];
    }
  }

  /** `encode()` with no source encodes the document against itself, which
      never fails for a well-formed document. */
  lemma EncodeSelfSucceeds(d: Document)
    requires WellFormed(d)
    ensures Encode(d, d).Ok?
  {
    LookupOwnEntries(d.sections);
    EncodeFails(d, d);
  }

  /** No line break in any section name, key or plain value. */
  ghost predicate SingleLine(secs: Sections) {
    forall s :: s in secs ==>
      NoBreak(s.0) && forall e :: e in s.1 ==> NoBreak(e.0) && (!IsHeredoc(e.1) ==> NoBreak(e.1))
  }

  predicate AllSingle(lines: seq<string>) {
    forall k :: 0 <= k < |lines| ==> NoBreak(lines[k])
  }

  lemma LookupSingleLine(self: Sections, name: string, key: string)
    requires SingleLine(self) && Lookup(self, name, key).Some? && !IsHeredoc(Lookup(self, name, key).value)
    ensures NoBreak(Lookup(self, name, key).value)
  {
    var s := self[Position(self, name)];
    assert s in self;
    assert s.1[Position(s.1, key)] in s.1;
  }

  lemma PrefixLinesSingle(first: string, other: string, lines: seq<string>)
    requires NoBreak(first) && NoBreak(other) && AllSingle(lines)
    ensures AllSingle(PrefixLines(first, other, lines))
  {
  }

  lemma EncodeEntrySingle(self: Sections, name: string, key: string, v: string)
    requires SingleLine(self) && NoBreak(key) && (!IsHeredoc(v) ==> NoBreak(v))
    requires EncodeEntry(self, name, key, v).Ok?
    ensures AllSingle(EncodeEntry(self, name, key, v).value)
  {
    var value := Lookup(self, name, key);
    if IsHeredoc(v) {
      if value.None? {
        PrefixLinesSingle("# TODO # " + key + " = ", "# TODO # ", SplitLines(v));
      } else {
        PrefixLinesSingle(key + " = ", "", SplitLines(value.value));
      }
    } else if value.Some? {
      LookupSingleLine(self, name, key);
    }
  }

  lemma {:induction false} EncodeEntriesSingle(self: Sections, name: string, sec: Section)
    requires SingleLine(self) && EncodeEntries(self, name, sec).Ok?
    requires forall k :: 0 <= k < |sec| ==> NoBreak(sec[k].0) && (!IsHeredoc(sec[k].1) ==> NoBreak(sec[k].1))
    ensures AllSingle(EncodeEntries(self, name, sec).value)
    decreases |sec|
  {
    if |sec| > 0 {
      var n := |sec| - 1;
      EncodeEntriesSingle(self, name, sec[..n]);
      EncodeEntrySingle(self, name, sec[n].0, sec[n].1);
    }
  }

  lemma {:induction false} EncodeSectionsSingle(self: Sections, source: Sections)
    requires SingleLine(self) && SingleLine(source) && EncodeSections(self, source).Ok?
    ensures AllSingle(EncodeSections(self, source).value)
    decreases |source|
  {
    if |source| > 0 {
      var n := |source| - 1;
      assert forall s :: s in source[..n] ==> s in source;
      EncodeSectionsSingle(self, source[..n]);
      var prev := EncodeSections(self, source[..n]).value;
      var s := source[n];
      assert s in source;
      var block := EncodeSection(self, s.0, s.1).value;
      assert EncodeSections(self, source).value == prev + block;
      if |s.1| > 0 {
        forall k | 0 <= k < |s.1| ensures NoBreak(s.1[k].0) && (!IsHeredoc(s.1[k].1) ==> NoBreak(s.1[k].1)) {
          assert s.1[k] in s.1;
        }
        EncodeEntriesSingle(self, s.0, s.1);
        SectionBlockSingle(s.0, EncodeEntries(self, s.0, s.1).value);
      }
      AllSingleConcat(prev, block);
    }
  }

  /** A section's header line, its entry lines and the blank line after them
      are single lines when the name and the entry lines are. */
  lemma SectionBlockSingle(name: string, lines: seq<string>)
    requires NoBreak(name) && AllSingle(lines)
    ensures AllSingle(["[" + name + "]"] + lines + [""])
  {
    var head := "[" + name + "]";
    assert NoBreak(head) by {
      forall i | 0 <= i < |head| ensures !IsBreak(head[i]) {
        if 0 < i < |head| - 1 { assert head[i] == name[i - 1]; }
      }
    }
    var all := [head] + lines + [""];
    forall k | 0 <= k < |all| ensures NoBreak(all[k]) {
      if 0 < k < |all| - 1 { assert all[k] == lines[k - 1]; }
    }
  }

  lemma AllSingleConcat(a: seq<string>, b: seq<string>)
    requires AllSingle(a) && AllSingle(b)
    ensures AllSingle(a + b)
  {
    forall k | 0 <= k < |a + b| ensures NoBreak((a + b)[k]) {
      if k >= |a| { assert (a + b)[k] == b[k - |a|]; }
    }
  }

  /** Every line `encode()` writes is a single line when the headers, names,
      keys and plain values hold no line break, so splitting what
      `encode_str()` writes gives `encode()`'s lines back. */
  lemma EncodeStrSplits(self: Document, source: Document)
    requires SingleLine(self.sections) && SingleLine(source.sections)
    requires forall k :: 0 <= k < |self.headers| ==> NoBreak(self.headers[k])
    requires Encode(self, source).Ok?
    ensures EncodeStr(self, source).Ok?
    ensures SplitLines(EncodeStr(self, source).value) == Encode(self, source).value
  {
    EncodeSectionsSingle(self.sections, source.sections);
    var lines := Encode(self, source).value;
    assert AllSingle(lines);
    SplitJoin(lines);
  }
}
