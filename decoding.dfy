/** What `Aseini.decode` computes from a list of lines, as functions: the header
    phase, then the body phase, which starts again from the first line. */
module Decoding {
  import opened Wrappers
  import opened Strings
  import opened OrderedDicts
  import opened Documents

  /** `AssertionError('[line N] Token error.')`. */
  datatype DecodeError = TokenError(lineNum: nat)

  /** A line of the header phase: it starts with `#` once stripped. */
  predicate IsHeaderLine(line: string) {
    StartsWith(Strip(line), "#")
  }

  /** `line.strip().removeprefix('#').strip()`. */
  function HeaderText(line: string): string {
    Strip(RemovePrefix(Strip(line), "#"))
  }

  /** The header phase: the leading lines that start with `#` once stripped,
      each with one `#` removed and stripped again. */
  function Headers(lines: seq<string>): (hs: seq<string>)
    ensures |hs| <= |lines|
    ensures forall i :: 0 <= i < |hs| ==> IsHeaderLine(lines[i]) && hs[i] == HeaderText(lines[i])
    ensures |hs| < |lines| ==> !IsHeaderLine(lines[|hs|])
  {
    if |lines| == 0 || !IsHeaderLine(lines[0]) then []
    else
      var tl := Headers(lines[1..]);
      HeadersCons(lines, HeaderText(lines[0]), tl);
      [HeaderText(lines[0])] + tl
  }

  /** The header facts about `lines[1..]` carried over to `lines`. */
  lemma HeadersCons(lines: seq<string>, h: string, tl: seq<string>)
    requires |lines| > 0 && |tl| <= |lines| - 1
    requires forall i :: 0 <= i < |tl| ==> IsHeaderLine(lines[1..][i]) && tl[i] == HeaderText(lines[1..][i])
    requires |tl| < |lines| - 1 ==> !IsHeaderLine(lines[1..][|tl|])
    ensures forall i :: 1 <= i < |tl| + 1 ==> IsHeaderLine(lines[i]) && ([h] + tl)[i] == HeaderText(lines[i])
    ensures |tl| + 1 < |lines| ==> !IsHeaderLine(lines[|tl| + 1])
  {
    forall i | 1 <= i < |tl| + 1
      ensures IsHeaderLine(lines[i]) && ([h] + tl)[i] == HeaderText(lines[i])
    {
      assert lines[i] == lines[1..][i - 1];
    }
    if |tl| + 1 < |lines| {
      assert lines[|tl| + 1] == lines[1..][|tl|];
    }
  }

  /** A stripped line the body phase passes over. */
  predicate IsBlankOrComment(line: string) {
    line == "" || StartsWith(line, "#")
  }

  predicate IsSectionMarker(line: string) {
    StartsWith(line, "[") && EndsWith(line, "]")
  }

  /** `line.removeprefix('[').removesuffix(']').strip()`. */
  function SectionName(line: string): string {
    Strip(RemoveSuffix(RemovePrefix(line, "["), "]"))
  }

  /** `line.split('=', 1)`, both halves stripped: the key and the value tail. */
  function SplitAssignment(line: string): (kv: (string, string))
    requires '=' in line
    ensures Stripped(kv.0) && Stripped(kv.1) && '=' !in kv.0
  {
    var i := IndexOf(line, '=');
    var key := Strip(line[..i]);
    StripSlice(line[..i]);
    StripSlice(line[i + 1..]);
    (key, Strip(line[i + 1..]))
  }

  /** The split is at the first `=`: whatever follows it, `=` signs included,
      is the value tail. */
  lemma SplitAssignmentAt(p: string, q: string)
    requires '=' !in p
    ensures SplitAssignment(p + "=" + q) == (Strip(p), Strip(q))
  {
    var line := p + "=" + q;
    assert line[|p|] == '=';
    assert forall j :: 0 <= j < |p| ==> line[j] == p[j];
    assert IndexOf(line, '=') == |p|;
    assert line[..|p|] == p;
    assert line[|p| + 1..] == q;
  }

  lemma StripSlice(s: string)
    ensures Stripped(Strip(s))
    ensures forall c :: c in Strip(s) ==> c in s
  {
    var l := LStrip(s);
    LStripSpec(s);
    RStripSpec(l);
    assert forall c :: c in Strip(s) ==> c in l;
  }

  /** A stripped line that makes decoding fail. */
  predicate IsTokenError(line: string) {
    !IsBlankOrComment(line) && !IsSectionMarker(line) && '=' !in line
  }

  /** Where a heredoc body that starts at line index `start` ends: the index
      of the first line from `start` on that strips to the tag, or the number
      of lines when none does. */
  function HeredocEnd(lines: seq<string>, start: nat, tag: string): (k: nat)
    requires start <= |lines|
    ensures start <= k <= |lines|
    ensures forall m :: start <= m < k ==> Strip(lines[m]) != tag
    ensures k < |lines| ==> Strip(lines[k]) == tag
    decreases |lines| - start
  {
    if start == |lines| || Strip(lines[start]) == tag then start
    else HeredocEnd(lines, start + 1, tag)
  }

  function RStripAll(lines: seq<string>): seq<string> {
    seq(|lines|, i requires 0 <= i < |lines| => RStrip(lines[i]))
  }

  /** `section = ini[name]` when the section exists, else a new empty section
      appended to `ini`. */
  function OpenSection(secs: Sections, name: string): (r: Sections)
    ensures HasKey(r, name)
    ensures HasKey(secs, name) ==> r == secs
    ensures !HasKey(secs, name) ==> r == secs + [(name, [])]
  {
    PutFind(secs, name, [], name);
    PutIfAbsent(secs, name, [])
  }

  /** `if key not in section: section[key] = value`, for the section named `name`. */
  function Store(secs: Sections, name: string, key: string, value: string): (r: Sections)
    requires HasKey(secs, name)
    ensures HasKey(r, name)
  {
    PutFind(secs, name, PutIfAbsent(Find(secs, name).value, key, value), name);
    Put(secs, name, PutIfAbsent(Find(secs, name).value, key, value))
  }

  /** Opening a section keeps every stored entry. */
  lemma OpenSectionFind(secs: Sections, name: string)
    ensures forall n, k :: Lookup(secs, n, k).Some? ==> Lookup(OpenSection(secs, name), n, k) == Lookup(secs, n, k)
  {
    forall n, k | Lookup(secs, n, k).Some? ensures Lookup(OpenSection(secs, name), n, k) == Lookup(secs, n, k) {
      PutFind(secs, name, [], n);
    }
  }

  /** Storing changes the section `name` only, and keeps the section order. */
  lemma StoreFind(secs: Sections, name: string, key: string, value: string)
    requires HasKey(secs, name)
    ensures var r := Store(secs, name, key, value);
      Keys(r) == Keys(secs)
      && Find(r, name) == Some(PutIfAbsent(Find(secs, name).value, key, value))
      && forall n :: n != name ==> Find(r, n) == Find(secs, n)
  {
    var v := PutIfAbsent(Find(secs, name).value, key, value);
    PutKeys(secs, name, v);
    forall n ensures Find(Put(secs, name, v), n) == if n == name then Some(v) else Find(secs, n) {
      PutFind(secs, name, v, n);
    }
  }

  /** The value a heredoc opened by `tail` stores when its body starts at
      line index `start`, and the index of the first line after its closing
      line (the end of the input closes it too). */
  function HeredocValue(lines: seq<string>, start: nat, tail: string): (r: (string, nat))
    requires start <= |lines|
    ensures start <= r.1 <= |lines|
  {
    var tag := RemovePrefix(tail, "<<<");
    var end := HeredocEnd(lines, start, tag);
    (JoinLines([tail] + RStripAll(lines[start..end]) + [tag]), if end < |lines| then end + 1 else |lines|)
  }

  /** The outcome of one turn of the body loop. */
  datatype Step = Next(next: nat, secs: Sections, cur: Option<string>) | Fail(lineNum: nat)

  /** One turn of the body loop on line index `i` (line number `i + 1`): the
      index of the next line it looks at (a heredoc consumes its body and
      closing line too), the sections and the current section afterwards. */
  function BodyStep(lines: seq<string>, i: nat, secs: Sections, cur: Option<string>): (st: Step)
    requires i < |lines|
    requires cur.Some? ==> HasKey(secs, cur.value)
    ensures st.Next? ==> i < st.next <= |lines| && (st.cur.Some? ==> HasKey(st.secs, st.cur.value))
  {
    var line := Strip(lines[i]);
    if IsBlankOrComment(line) then Next(i + 1, secs, cur)
    else if IsSectionMarker(line) then
      var name := SectionName(line);
      Next(i + 1, OpenSection(secs, name), Some(name))
    else if '=' in line then
      if cur.None? then Next(i + 1, secs, cur)
      else
        var kv := SplitAssignment(line);
        if IsHeredoc(kv.1) then
          var hv := HeredocValue(lines, i + 1, kv.1);
          Next(hv.1, Store(secs, cur.value, kv.0, hv.0), cur)
        else
          Next(i + 1, Store(secs, cur.value, kv.0, kv.1), cur)
    else Fail(i + 1)
  }

  /** The body phase from line index `i` on, with the sections read so far
      and the current section. */
  function DecodeBody(lines: seq<string>, i: nat, secs: Sections, cur: Option<string>)
    : Result<Sections, DecodeError>
    requires i <= |lines|
    requires cur.Some? ==> HasKey(secs, cur.value)
    decreases |lines| - i
  {
    if i == |lines| then Ok(secs)
    else
      match BodyStep(lines, i, secs, cur)
      case Fail(n) => Err(TokenError(n))
      case Next(next, secs', cur') => DecodeBody(lines, next, secs', cur')
  }

  /** `Aseini.decode(lines)` for a list of lines: the body loop starts again
      from the first line, so header lines are passed over as comments. */
  function Decode(lines: seq<string>): Result<Document, DecodeError> {
    match DecodeBody(lines, 0, [], None)
    case Ok(secs) => Ok(Document(Headers(lines), secs))
    case Err(e) => Err(e)
  }

  /** `Aseini.decode_str(text)`. */
  function DecodeStr(text: string): Result<Document, DecodeError> {
    Decode(SplitLines(text))
  }

  lemma OpenSectionGrows(secs: Sections, name: string)
    ensures Grows(secs, OpenSection(secs, name))
    ensures WellFormedSections(secs) ==> WellFormedSections(OpenSection(secs, name))
  {
    OpenSectionFind(secs, name);
    PutKeys(secs, name, []);
    PutMembers(secs, name, []);
  }

  /** Storing an assignment never changes a value already stored: a repeated key
      keeps its first value. */
  lemma StoreGrows(secs: Sections, name: string, key: string, value: string)
    requires HasKey(secs, name)
    ensures Grows(secs, Store(secs, name, key, value))
    ensures WellFormedSections(secs) ==> WellFormedSections(Store(secs, name, key, value))
  {
    var sec := Find(secs, name).value;
    var r := Store(secs, name, key, value);
    StoreFind(secs, name, key, value);
    forall n, k | Lookup(secs, n, k).Some? ensures Lookup(r, n, k) == Lookup(secs, n, k) {
      if n == name && !HasKey(sec, key) { PutFind(sec, key, value, k); }
    }
    if WellFormedSections(secs) {
      FindWellFormed(secs, name);
      PutKeys(sec, key, value);
      PutMembers(secs, name, PutIfAbsent(sec, key, value));
    }
  }

  lemma BodyStepGrows(lines: seq<string>, i: nat, secs: Sections, cur: Option<string>)
    requires i < |lines|
    requires cur.Some? ==> HasKey(secs, cur.value)
    requires BodyStep(lines, i, secs, cur).Next?
    ensures Grows(secs, BodyStep(lines, i, secs, cur).secs)
    ensures WellFormedSections(secs) ==> WellFormedSections(BodyStep(lines, i, secs, cur).secs)
  {
    var line := Strip(lines[i]);
    if IsBlankOrComment(line) {
    } else if IsSectionMarker(line) {
      OpenSectionGrows(secs, SectionName(line));
    } else if cur.Some? {
      var kv := SplitAssignment(line);
      if IsHeredoc(kv.1) {
        StoreGrows(secs, cur.value, kv.0, HeredocValue(lines, i + 1, kv.1).0);
      } else {
        StoreGrows(secs, cur.value, kv.0, kv.1);
      }
    }
  }

  /** The body phase only adds: section names keep their order and stored
      entries keep their values; names and keys stay distinct. */
  lemma {:induction false} DecodeBodyGrows(lines: seq<string>, i: nat, secs: Sections, cur: Option<string>)
    requires i <= |lines|
    requires cur.Some? ==> HasKey(secs, cur.value)
    requires DecodeBody(lines, i, secs, cur).Ok?
    ensures Grows(secs, DecodeBody(lines, i, secs, cur).value)
    ensures WellFormedSections(secs) ==> WellFormedSections(DecodeBody(lines, i, secs, cur).value)
    decreases |lines| - i
  {
    if i < |lines| {
      var st := BodyStep(lines, i, secs, cur);
      BodyStepGrows(lines, i, secs, cur);
      DecodeBodyGrows(lines, st.next, st.secs, st.cur);
      GrowsTransitive(secs, st.secs, DecodeBody(lines, i, secs, cur).value);
    }
  }

  lemma BodyStepError(lines: seq<string>, i: nat, secs: Sections, cur: Option<string>)
    requires i < |lines|
    requires cur.Some? ==> HasKey(secs, cur.value)
    ensures BodyStep(lines, i, secs, cur).Fail? <==> IsTokenError(Strip(lines[i]))
    ensures BodyStep(lines, i, secs, cur).Fail? ==> BodyStep(lines, i, secs, cur).lineNum == i + 1
  {
  }

  /** A failing body phase names a line it has reached, and that line, once
      stripped, is neither blank, a comment, a section marker nor an assignment. */
  lemma {:induction false} DecodeBodyError(lines: seq<string>, i: nat, secs: Sections, cur: Option<string>)
    requires i <= |lines|
    requires cur.Some? ==> HasKey(secs, cur.value)
    requires DecodeBody(lines, i, secs, cur).Err?
    ensures var n := DecodeBody(lines, i, secs, cur).error.lineNum;
      i < n <= |lines| && IsTokenError(Strip(lines[n - 1]))
    decreases |lines| - i
  {
    var st := BodyStep(lines, i, secs, cur);
    BodyStepError(lines, i, secs, cur);
    if st.Next? {
      DecodeBodyError(lines, st.next, st.secs, st.cur);
    }
  }

  /** The body loop, started on line index `i`, takes steps without failing
      until it looks at line index `j` with sections `s` and current `c`. */
  ghost predicate Reaches(lines: seq<string>, i: nat, secs: Sections, cur: Option<string>,
                          j: nat, s: Sections, c: Option<string>)
    requires i <= j <= |lines|
    requires cur.Some? ==> HasKey(secs, cur.value)
    decreases j - i
  {
    if i == j then secs == s && cur == c
    else
      match BodyStep(lines, i, secs, cur)
      case Fail(_) => false
      case Next(next, secs', cur') => next <= j && Reaches(lines, next, secs', cur', j, s, c)
  }

  /** A failing body phase fails on the first line it cannot read: every
      step before it succeeded, and the step on it is the one that fails. */
  lemma {:induction false} DecodeBodyFirstError(lines: seq<string>, i: nat, secs: Sections, cur: Option<string>)
    returns (s: Sections, c: Option<string>)
    requires i <= |lines|
    requires cur.Some? ==> HasKey(secs, cur.value)
    requires DecodeBody(lines, i, secs, cur).Err?
    ensures var n := DecodeBody(lines, i, secs, cur).error.lineNum;
      i < n <= |lines| && (c.Some? ==> HasKey(s, c.value)) &&
      Reaches(lines, i, secs, cur, n - 1, s, c) && BodyStep(lines, n - 1, s, c) == Fail(n)
    decreases |lines| - i
  {
    var st := BodyStep(lines, i, secs, cur);
    if st.Next? {
      s, c := DecodeBodyFirstError(lines, st.next, st.secs, st.cur);
    } else {
      s, c := secs, cur;
    }
  }

  lemma StoreShape(secs: Sections, name: string, key: string, value: string)
    requires HasKey(secs, name) && DecodedSections(secs)
    requires Stripped(key) && '=' !in key && DecodedValue(value)
    ensures DecodedSections(Store(secs, name, key, value))
  {
    var sec := Find(secs, name).value;
    assert (name, sec) == secs[Position(secs, name)];
    PutMembers(sec, key, value);
    PutMembers(secs, name, PutIfAbsent(sec, key, value));
  }

  /** The stored form of a heredoc read by the body loop. */
  lemma HeredocValueShape(lines: seq<string>, start: nat, tail: string)
    requires start <= |lines| && IsHeredoc(tail) && Stripped(tail)
    ensures var tag := RemovePrefix(tail, "<<<");
      var body := RStripAll(lines[start..HeredocEnd(lines, start, tag)]);
      tail == "<<<" + tag && HeredocValue(lines, start, tail).0 == HeredocText(tag, body)
      && HeredocBody(tag, body)
    ensures DecodedValue(HeredocValue(lines, start, tail).0)
  {
    var tag := RemovePrefix(tail, "<<<");
    var end := HeredocEnd(lines, start, tag);
    var body := RStripAll(lines[start..end]);
    forall k | 0 <= k < |body| ensures RStripped(body[k]) && Strip(body[k]) != tag {
      RStripSpec(lines[start + k]);
      StripRStrip(lines[start + k]);
    }
    assert tail == "<<<" + tag;
    assert DecodedValue(HeredocText(tag, body));
  }

  lemma BodyStepShape(lines: seq<string>, i: nat, secs: Sections, cur: Option<string>)
    requires i < |lines|
    requires cur.Some? ==> HasKey(secs, cur.value)
    requires BodyStep(lines, i, secs, cur).Next? && DecodedSections(secs)
    ensures DecodedSections(BodyStep(lines, i, secs, cur).secs)
  {
    var line := Strip(lines[i]);
    if IsBlankOrComment(line) {
    } else if IsSectionMarker(line) {
      var name := SectionName(line);
      var _, _ := StripDecompose(RemoveSuffix(RemovePrefix(line, "["), "]"));
      PutMembers(secs, name, []);
    } else if cur.Some? {
      var kv := SplitAssignment(line);
      if IsHeredoc(kv.1) {
        HeredocValueShape(lines, i + 1, kv.1);
        StoreShape(secs, cur.value, kv.0, HeredocValue(lines, i + 1, kv.1).0);
      } else {
        StoreShape(secs, cur.value, kv.0, kv.1);
      }
    }
  }

  lemma {:induction false} DecodeBodyShape(lines: seq<string>, i: nat, secs: Sections, cur: Option<string>)
    requires i <= |lines|
    requires cur.Some? ==> HasKey(secs, cur.value)
    requires DecodeBody(lines, i, secs, cur).Ok? && DecodedSections(secs)
    ensures DecodedSections(DecodeBody(lines, i, secs, cur).value)
    decreases |lines| - i
  {
    if i < |lines| {
      var st := BodyStep(lines, i, secs, cur);
      BodyStepShape(lines, i, secs, cur);
      DecodeBodyShape(lines, st.next, st.secs, st.cur);
    }
  }

  /** A decoded document has distinct section names and distinct keys; names
      and keys are stripped, keys hold no `=`, plain values are stripped and
      do not start with `<<<`, and heredoc values are enveloped bodies. */
  lemma DecodeWellFormed(lines: seq<string>)
    requires Decode(lines).Ok?
    ensures WellFormed(Decode(lines).value)
    ensures DecodedSections(Decode(lines).value.sections)
  {
    DecodeBodyGrows(lines, 0, [], None);
    DecodeBodyShape(lines, 0, [], None);
  }

  /** Decoding fails only with the 1-based number of a line that is neither
      blank, a comment, a section marker nor an assignment. */
  lemma DecodeFailsAtTokenError(lines: seq<string>)
    requires Decode(lines).Err?
    ensures 1 <= Decode(lines).error.lineNum <= |lines|
    ensures IsTokenError(Strip(lines[Decode(lines).error.lineNum - 1]))
  {
    DecodeBodyError(lines, 0, [], None);
  }

  /** The line `decode` reports is the first it could not read: starting from
      the first line, the loop reached it without failing. */
  lemma DecodeFirstError(lines: seq<string>) returns (s: Sections, c: Option<string>)
    requires Decode(lines).Err?
    ensures var n := Decode(lines).error.lineNum;
      1 <= n <= |lines| && (c.Some? ==> HasKey(s, c.value)) &&
      Reaches(lines, 0, [], None, n - 1, s, c) && BodyStep(lines, n - 1, s, c) == Fail(n)
  {
    s, c := DecodeBodyFirstError(lines, 0, [], None);
  }

  /** Before any section, lines that are neither markers nor token errors are
      passed over one by one: nothing is stored, and the line after a
      `key = <<<TAG` line is looked at in its own right. */
  lemma {:induction false} SkipBeforeSection(lines: seq<string>, i: nat, k: nat)
    requires i <= k <= |lines|
    requires forall t :: i <= t < k ==> !IsSectionMarker(Strip(lines[t])) && !IsTokenError(Strip(lines[t]))
    ensures DecodeBody(lines, i, [], None) == DecodeBody(lines, k, [], None)
    decreases k - i
  {
    if i < k {
      SkipBeforeSection(lines, i + 1, k);
    }
  }

  /** Without any line that is a token error, decoding succeeds. */
  lemma {:induction false} DecodeBodyOk(lines: seq<string>, i: nat, secs: Sections, cur: Option<string>)
    requires i <= |lines|
    requires cur.Some? ==> HasKey(secs, cur.value)
    requires forall t :: i <= t < |lines| ==> !IsTokenError(Strip(lines[t]))
    ensures DecodeBody(lines, i, secs, cur).Ok?
    decreases |lines| - i
  {
    if i < |lines| {
      var st := BodyStep(lines, i, secs, cur);
      BodyStepError(lines, i, secs, cur);
      DecodeBodyOk(lines, st.next, st.secs, st.cur);
    }
  }

  lemma DecodeSucceeds(lines: seq<string>)
    requires forall t :: 0 <= t < |lines| ==> !IsTokenError(Strip(lines[t]))
    ensures Decode(lines).Ok?
  {
    DecodeBodyOk(lines, 0, [], None);
  }
}
