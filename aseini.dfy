/** The `Aseini` object: a strings document whose header list and section
    dictionary the methods below read and update in place, each method proved
    to compute what the corresponding function of the specification modules
    says. */
module AsepriteIni {
  import opened Wrappers
  import opened Strings
  import opened OrderedDicts
  import opened Documents
  import Decoding
  import Merging
  import Coverages
  import Encoding
  import Alphabets

  /** One more element of a prefix. */
  lemma TakeNext<T>(s: seq<T>, i: nat)
    requires i < |s|
    ensures s[..i + 1] == s[..i] + [s[i]]
  {
  }

  class Aseini {
    var headers: seq<string>
    var sections: Sections

    /** The document this object holds. */
    function Doc(): Document
      reads this
    {
      Document(headers, sections)
    }

    /** `Aseini(headers)`: no sections yet. */
    constructor(headers: seq<string>)
      ensures Doc() == Document(headers, [])
      ensures WellFormed(Doc())
    {
      this.headers := headers;
      this.sections := [];
    }

    /** `Aseini.decode(lines)`: a new object, or the token error the body loop
        raised. */
    static method Decode(lines: seq<string>) returns (r: Result<Aseini, Decoding.DecodeError>)
      ensures r.Ok? ==> fresh(r.value) && Decoding.Decode(lines) == Ok(r.value.Doc())
      ensures r.Ok? ==> WellFormed(r.value.Doc())
      ensures r.Err? ==> Decoding.Decode(lines) == Err(r.error)
    {
      var hs := DecodeHeaders(lines);
      var ini := new Aseini(hs);
      var cur: Option<string> := None;
      var i := 0;
      while i < |lines|
        invariant 0 <= i <= |lines|
        invariant ini.headers == hs
        invariant cur.Some? ==> HasKey(ini.sections, cur.value)
        invariant Decoding.DecodeBody(lines, 0, [], None) == Decoding.DecodeBody(lines, i, ini.sections, cur)
        decreases |lines| - i
      {
        var next, cur', error := ini.DecodeLine(lines, i, cur);
        if error.Some? {
          return Err(Decoding.TokenError(error.value));
        }
        i, cur := next, cur';
      }
      Decoding.DecodeWellFormed(lines);
      return Ok(ini);
    }

    /** One turn of the body loop on line index `i`, on this object's
        sections: the index of the next line to read and the current section
        afterwards, or the number of the line that raised the token error. */
    method DecodeLine(lines: seq<string>, i: nat, cur: Option<string>)
      returns (next: nat, cur': Option<string>, error: Option<nat>)
      requires i < |lines| && (cur.Some? ==> HasKey(sections, cur.value))
      modifies this
      ensures headers == old(headers)
      ensures var st := Decoding.BodyStep(lines, i, old(sections), cur);
        if st.Fail? then error == Some(st.lineNum) && sections == old(sections)
        else error.None? && next == st.next && sections == st.secs && cur' == st.cur
    {
      error := None;
      next, cur' := i + 1, cur;
      var line := Strip(lines[i]);
      if Decoding.IsBlankOrComment(line) {
        return;
      }
      if Decoding.IsSectionMarker(line) {
        var name := Decoding.SectionName(line);
        if !HasKey(sections, name) {
          sections := sections + [(name, [])];
        }
        cur' := Some(name);
        assert sections == Decoding.OpenSection(old(sections), name);
      } else if '=' in line {
        if cur.None? {
          return;
        }
        var (key, tail) := Decoding.SplitAssignment(line);
        var value := tail;
        if IsHeredoc(tail) {
          value, next := ReadHeredoc(lines, i + 1, tail);
        }
        var section := Find(sections, cur.value).value;
        if !HasKey(section, key) {
          sections := Put(sections, cur.value, Put(section, key, value));
        } else {
          PutFound(sections, cur.value);
        }
        assert sections == Decoding.Store(old(sections), cur.value, key, value);
      } else {
        error := Some(i + 1);
      }
    }

    /** The header loop: leading lines that start with `#` once stripped. */
    static method DecodeHeaders(lines: seq<string>) returns (hs: seq<string>)
      ensures hs == Decoding.Headers(lines)
    {
      ghost var all := Decoding.Headers(lines);
      hs := [];
      var i := 0;
      while i < |lines|
        invariant 0 <= i <= |all|
        invariant hs == all[..i]
      {
        if !Decoding.IsHeaderLine(lines[i]) {
          break;
        }
        assert i < |all|;
        assert all[i] == Decoding.HeaderText(lines[i]);
        TakeNext(all, i);
        hs := hs + [Decoding.HeaderText(lines[i])];
        i := i + 1;
      }
      assert i == |all|;
    }

    /** The heredoc loop: the lines from `start` up to the one that strips to
        the tag, right-stripped and wrapped in the opening and the tag; `next`
        is the index of the first line after the closing one. */
    static method ReadHeredoc(lines: seq<string>, start: nat, tail: string)
      returns (value: string, next: nat)
      requires start <= |lines|
      ensures (value, next) == Decoding.HeredocValue(lines, start, tail)
    {
      var tag := RemovePrefix(tail, "<<<");
      ghost var end := Decoding.HeredocEnd(lines, start, tag);
      var buffer := [tail];
      next := start;
      while next < |lines|
        invariant start <= next <= end
        invariant buffer == [tail] + Decoding.RStripAll(lines[start..next])
      {
        var valueLine := lines[next];
        next := next + 1;
        if Strip(valueLine) == tag {
          break;
        }
        assert lines[start..next] == lines[start..next - 1] + [valueLine];
        buffer := buffer + [RStrip(valueLine)];
      }
      buffer := buffer + [tag];
      value := JoinLines(buffer);
    }

    /** `Aseini.decode_str(text)`. */
    static method DecodeStr(text: string) returns (r: Result<Aseini, Decoding.DecodeError>)
      ensures r.Ok? ==> fresh(r.value) && Decoding.DecodeStr(text) == Ok(r.value.Doc())
      ensures r.Ok? ==> WellFormed(r.value.Doc())
      ensures r.Err? ==> Decoding.DecodeStr(text) == Err(r.error)
    {
      r := Decode(SplitLines(text));
    }

    /** `self.patch(other)`: each section of `other` is merged into the section
        of the same name, created empty where missing, with `other`'s values
        winning. */
    method Patch(other: Aseini)
      modifies this
      ensures Doc() == Merging.Patch(old(Doc()), old(other.Doc()))
      ensures WellFormed(old(Doc())) ==> WellFormed(Doc())
    {
      var source := other.sections;
      var i := 0;
      while i < |source|
        invariant 0 <= i <= |source|
        invariant headers == old(headers)
        invariant sections == Merging.PatchSections(old(sections), source[..i])
      {
        var name, otherSection := source[i].0, source[i].1;
        var section: Section;
        if HasKey(sections, name) {
          section := Find(sections, name).value;
        } else {
          section := [];
          PutAfterAppend(sections, name, section, Update(section, otherSection));
          sections := sections + [(name, section)];
        }
        sections := Put(sections, name, Update(section, otherSection));
        assert source[..i + 1][..i] == source[..i];
        i := i + 1;
      }
      assert source[..i] == source;
      Merging.PatchExtends(old(sections), source);
    }

    /** `self.fallback(other)`: each section of `other` fills in the keys the
        section of the same name lacks, created empty where missing; values
        already present are kept. */
    method Fallback(other: Aseini)
      modifies this
      ensures Doc() == Merging.Fallback(old(Doc()), old(other.Doc()))
      ensures WellFormed(old(Doc())) ==> WellFormed(Doc())
    {
      var source := other.sections;
      var i := 0;
      while i < |source|
        invariant 0 <= i <= |source|
        invariant headers == old(headers)
        invariant sections == Merging.FallbackSections(old(sections), source[..i])
      {
        var name, otherSection := source[i].0, source[i].1;
        var section: Section;
        if HasKey(sections, name) {
          section := Find(sections, name).value;
        } else {
          section := [];
          sections := sections + [(name, section)];
        }
        ghost var start := section;
        section := FillSection(section, otherSection);
        if start == [] && !HasKey(Merging.FallbackSections(old(sections), source[..i]), name) {
          PutAfterAppend(Merging.FallbackSections(old(sections), source[..i]), name, start, section);
        }
        sections := Put(sections, name, section);
        assert source[..i + 1][..i] == source[..i];
        i := i + 1;
      }
      assert source[..i] == source;
      Merging.FallbackExtends(old(sections), source);
    }

    /** The inner loop of `fallback`: every key of `other` the section lacks
        is added with `other`'s value. */
    static method FillSection(section: Section, other: Section) returns (r: Section)
      ensures r == FillMissing(section, other)
    {
      r := section;
      var j := 0;
      while j < |other|
        invariant 0 <= j <= |other|
        invariant r == FillMissing(section, other[..j])
      {
        var key, value := other[j].0, other[j].1;
        if !HasKey(r, key) {
          r := Put(r, key, value);
        }
        assert other[..j + 1][..j] == other[..j];
        j := j + 1;
      }
      assert other[..j] == other;
    }

    /** `self.coverage(source)`: how many of `source`'s (section, key) pairs
        this object also has, out of how many `source` has. */
    method Coverage(source: Aseini) returns (translated: nat, total: nat)
      ensures (translated, total) == Coverages.Coverage(Doc(), source.Doc())
    {
      total := 0;
      translated := 0;
      var secs := source.sections;
      var i := 0;
      while i < |secs|
        invariant 0 <= i <= |secs|
        invariant total == Coverages.Total(secs[..i])
        invariant translated == Coverages.Translated(sections, secs[..i])
      {
        var name, section := secs[i].0, secs[i].1;
        var j := 0;
        while j < |section|
          invariant 0 <= j <= |section|
          invariant total == Coverages.Total(secs[..i]) + j
          invariant translated == Coverages.Translated(sections, secs[..i]) + Coverages.TranslatedIn(sections, name, section[..j])
        {
          total := total + 1;
          if HasKey(sections, name) && HasKey(Find(sections, name).value, section[j].0) {
            translated := translated + 1;
          }
          assert section[..j + 1][..j] == section[..j];
          j := j + 1;
        }
        assert section[..j] == section;
        assert secs[..i + 1][..i] == secs[..i];
        i := i + 1;
      }
      assert secs[..i] == secs;
    }

    /** `self.encode(source)`, with `null` standing for the omitted source
        (the object itself): the lines of the output, or the assertion that
        failed on a key whose kinds differ. */
    method Encode(source: Aseini?) returns (r: Result<seq<string>, Encoding.EncodeError>)
      ensures r == Encoding.Encode(Doc(), if source == null then Doc() else source.Doc())
    {
      var src := if source == null then sections else source.sections;
      var lines := EncodeHeaders();
      lines := lines + [""];
      r := EncodeSections(lines, src);
    }

    /** The section loop of `encode`, appending to `lines`: empty source
        sections are passed over, the others give their marker, their keys'
        lines and a blank line. */
    method EncodeSections(lines: seq<string>, src: Sections) returns (r: Result<seq<string>, Encoding.EncodeError>)
      ensures r == match Encoding.EncodeSections(sections, src)
                   case Ok(body) => Ok(lines + body)
                   case Err(e) => Err(e)
    {
      var out := lines;
      ghost var body: seq<string> := [];
      var i := 0;
      while i < |src|
        invariant 0 <= i <= |src|
        invariant Encoding.EncodeSections(sections, src[..i]) == Ok(body)
        invariant out == lines + body
      {
        var block := EncodeSection(src[i].0, src[i].1);
        if block.Err? {
          Encoding.EncodeSectionsStop(sections, src, i);
          return Err(block.error);
        }
        Encoding.EncodeSectionsNext(sections, src, i);
        assert out + block.value == lines + (body + block.value);
        out := out + block.value;
        body := body + block.value;
        i := i + 1;
      }
      assert src[..i] == src;
      r := Ok(out);
    }

    /** One turn of the section loop of `encode`: nothing for an empty source
        section, otherwise its marker, its keys' lines and a blank line. */
    method EncodeSection(name: string, sourceSection: Section) returns (r: Result<seq<string>, Encoding.EncodeError>)
      ensures r == Encoding.EncodeSection(sections, name, sourceSection)
    {
      if |sourceSection| <= 0 {
        return Ok([]);
      }
      var entries := EncodeEntries(name, sourceSection);
      if entries.Err? {
        return Err(entries.error);
      }
      r := Ok(["[" + name + "]"] + entries.value + [""]);
    }

    /** The header loop of `encode`: `# {header}` for each header. */
    method EncodeHeaders() returns (lines: seq<string>)
      ensures lines == Encoding.HeaderComments(headers)
    {
      lines := [];
      var h := 0;
      while h < |headers|
        invariant 0 <= h <= |headers|
        invariant lines == Encoding.HeaderComments(headers)[..h]
      {
        lines := lines + ["# " + headers[h]];
        h := h + 1;
      }
    }

    /** The key loop of `encode` for the source section `name`. */
    method EncodeEntries(name: string, sourceSection: Section) returns (r: Result<seq<string>, Encoding.EncodeError>)
      ensures r == Encoding.EncodeEntries(sections, name, sourceSection)
    {
      var lines: seq<string> := [];
      var j := 0;
      while j < |sourceSection|
        invariant 0 <= j <= |sourceSection|
        invariant Encoding.EncodeEntries(sections, name, sourceSection[..j]) == Ok(lines)
      {
        var key, sourceValue := sourceSection[j].0, sourceSection[j].1;
        assert sourceSection[..j + 1][..j] == sourceSection[..j];
        var entry := EncodeEntry(name, key, sourceValue);
        if entry.Err? {
          Encoding.EncodeEntriesFailFirst(sections, name, sourceSection, j + 1);
          return Err(entry.error);
        }
        lines := lines + entry.value;
        j := j + 1;
      }
      assert sourceSection[..j] == sourceSection;
      r := Ok(lines);
    }

    /** The lines of one source key: the receiver's value where it has one of
        the same kind, a `# TODO #` comment with the source's where it has none. */
    method EncodeEntry(name: string, key: string, sourceValue: string) returns (r: Result<seq<string>, Encoding.EncodeError>)
      ensures r == Encoding.EncodeEntry(sections, name, key, sourceValue)
    {
      var value: Option<string> := None;
      if HasKey(sections, name) && HasKey(Find(sections, name).value, key) {
        value := Some(Find(Find(sections, name).value, key).value);
      }
      if IsHeredoc(sourceValue) {
        if value.None? {
          var lines := AppendLines([], "# TODO # " + key + " = ", "# TODO # ", SplitLines(sourceValue));
          assert lines == Encoding.PrefixLines("# TODO # " + key + " = ", "# TODO # ", SplitLines(sourceValue));
          return Ok(lines);
        }
        if !IsHeredoc(value.value) {
          return Err(Encoding.ValueTypeIncorrect(name, key));
        }
        var lines := AppendLines([], key + " = ", "", SplitLines(value.value));
        assert lines == Encoding.PrefixLines(key + " = ", "", SplitLines(value.value));
        return Ok(lines);
      } else {
        if value.None? {
          return Ok(["# TODO # " + key + " = " + sourceValue]);
        }
        if IsHeredoc(value.value) {
          return Err(Encoding.ValueTypeIncorrect(name, key));
        }
        return Ok([key + " = " + value.value]);
      }
    }

    /** The `enumerate` loops of `encode`: the first line of a value after
        `first`, every other one after `other`. */
    static method AppendLines(lines: seq<string>, first: string, other: string, parts: seq<string>)
      returns (out: seq<string>)
      ensures out == lines + Encoding.PrefixLines(first, other, parts)
    {
      out := lines;
      var index := 0;
      while index < |parts|
        invariant 0 <= index <= |parts|
        invariant out == lines + Encoding.PrefixLines(first, other, parts)[..index]
      {
        if index == 0 {
          out := out + [first + parts[index]];
        } else {
          out := out + [other + parts[index]];
        }
        index := index + 1;
      }
    }

    /** `self.encode_str(source)`. */
    method EncodeStr(source: Aseini?) returns (r: Result<string, Encoding.EncodeError>)
      ensures r == Encoding.EncodeStr(Doc(), if source == null then Doc() else source.Doc())
    {
      var lines := Encode(source);
      if lines.Err? {
        return Err(lines.error);
      }
      r := Ok(JoinLines(lines.value));
    }

    /** `self.alphabet()`: every character of every value, heredocs reduced to
        their body lines. */
    method Alphabet() returns (alphabet: set<char>)
      ensures alphabet == Alphabets.Alphabet(Doc())
    {
      alphabet := {};
      var i := 0;
      while i < |sections|
        invariant 0 <= i <= |sections|
        invariant alphabet == Alphabets.SectionsAlphabet(sections[..i])
      {
        var section := sections[i].1;
        var j := 0;
        while j < |section|
          invariant 0 <= j <= |section|
          invariant alphabet == Alphabets.SectionsAlphabet(sections[..i]) + Alphabets.SectionAlphabet(section[..j])
        {
          var value := UnwrapValue(section[j].1);
          alphabet := AddCharacters(alphabet, value);
          Alphabets.UnionOfNext(section, Alphabets.EntryAlphabet, j);
          j := j + 1;
        }
        assert section[..j] == section;
        Alphabets.UnionOfNext(sections, Alphabets.NamedSectionAlphabet, i);
        i := i + 1;
      }
      assert sections[..i] == sections;
    }

    /** A heredoc value loses its `<<<TAG` opening, its closing tag and its
        newlines; any other value is kept as it is. */
    static method UnwrapValue(v: string) returns (value: string)
      ensures value == Alphabets.Unwrap(v)
      ensures !IsHeredoc(v) ==> value == v
    {
      value := v;
      if IsHeredoc(value) {
        var tag := RemovePrefix(SplitLines(value)[0], "<<<");
        value := RemoveAll(RemoveSuffix(RemovePrefix(value, "<<<" + tag), tag), '\n');
      }
    }

    /** `for c in value: alphabet.add(c)`. */
    static method AddCharacters(alphabet: set<char>, value: string) returns (r: set<char>)
      ensures r == alphabet + Alphabets.CharSet(value)
    {
      r := alphabet;
      var k := 0;
      while k < |value|
        invariant 0 <= k <= |value|
        invariant r == alphabet + Alphabets.CharSet(value[..k])
      {
        assert value[..k + 1] == value[..k] + [value[k]];
        r := r + {value[k]};
        k := k + 1;
      }
      assert value[..k] == value;
    }
  }
}
