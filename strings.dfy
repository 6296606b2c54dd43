/** Python string operations that the INI codec relies on: `strip`, `rstrip`,
    `startswith`, `endswith`, `removeprefix`, `removesuffix`, `find`,
    `replace(c, '')`, `'\n'.join` and `re.split(r'\r\n|\r|\n', ...)`. */
module Strings {

  /** Python's `str.isspace()` for one character: the code points whose
      bidirectional class is WS, B or S, or whose category is Zs. */
  predicate IsSpace(c: char) {
    var n := c as int;
    (0x09 <= n <= 0x0D) || (0x1C <= n <= 0x20) || n == 0x85 || n == 0xA0 || n == 0x1680
    || (0x2000 <= n <= 0x200A) || n == 0x2028 || n == 0x2029 || n == 0x202F
    || n == 0x205F || n == 0x3000
  }

  predicate AllSpace(s: string) {
    forall i :: 0 <= i < |s| ==> IsSpace(s[i])
  }

  /** Neither end of `s` is whitespace: what `strip` returns. */
  predicate Stripped(s: string) {
    |s| == 0 || (!IsSpace(s[0]) && !IsSpace(s[|s| - 1]))
  }

  /** The last character of `s` is not whitespace: what `rstrip` returns. */
  predicate RStripped(s: string) {
    |s| == 0 || !IsSpace(s[|s| - 1])
  }

  /** A line-break character as understood by `re.split(r'\r\n|\r|\n', ...)`. */
  predicate IsBreak(c: char) {
    c == '\r' || c == '\n'
  }

  predicate NoBreak(s: string) {
    forall i :: 0 <= i < |s| ==> !IsBreak(s[i])
  }

  /** `s.lstrip()`: the longest suffix of `s` that does not start with whitespace. */
  function LStrip(s: string): string
  {
    if |s| > 0 && IsSpace(s[0]) then LStrip(s[1..]) else s
  }

  lemma {:induction false} LStripSpec(s: string)
    ensures var r := LStrip(s);
      |r| <= |s| && r == s[|s| - |r|..] && (|r| == 0 || !IsSpace(r[0])) && AllSpace(s[..|s| - |r|])
  {
    if |s| > 0 && IsSpace(s[0]) {
      var t := s[1..];
      LStripSpec(t);
      var r := LStrip(t);
      assert LStrip(s) == r;
      assert r == s[|s| - |r|..];
      var pre, tpre := s[..|s| - |r|], t[..|t| - |r|];
      assert AllSpace(pre) by {
        forall i | 0 <= i < |pre| ensures IsSpace(pre[i]) {
          if i > 0 {
            assert pre[i] == tpre[i - 1];
          }
        }
      }
    }
  }

  /** `s.rstrip()`: the longest prefix of `s` that does not end with whitespace. */
  function RStrip(s: string): string
  {
    if |s| > 0 && IsSpace(s[|s| - 1]) then RStrip(s[..|s| - 1]) else s
  }

  lemma {:induction false} RStripSpec(s: string)
    ensures var r := RStrip(s);
      |r| <= |s| && r == s[..|r|] && RStripped(r) && AllSpace(s[|r|..])
  {
    if |s| > 0 && IsSpace(s[|s| - 1]) {
      var t := s[..|s| - 1];
      RStripSpec(t);
      var r := RStrip(t);
      assert RStrip(s) == r;
      assert r == s[..|r|];
      var post, tpost := s[|r|..], t[|r|..];
      assert AllSpace(post) by {
        forall i | 0 <= i < |post| ensures IsSpace(post[i]) {
          if i < |tpost| {
            assert post[i] == tpost[i];
          }
        }
      }
    }
  }

  /** `s.strip()`. */
  function Strip(s: string): string {
    RStrip(LStrip(s))
  }

  /** Whitespace around an already stripped string is exactly what `strip` removes. */
  lemma {:induction false} StripAround(p: string, m: string, q: string)
    requires AllSpace(p) && AllSpace(q) && Stripped(m)
    ensures Strip(p + m + q) == m
  {
    LStripAround(p, m + q);
    assert p + m + q == p + (m + q);
    if |m| == 0 {
      assert m + q == q;
      RStripAllSpace(q);
    } else {
      LStripKeeps(m + q);
      RStripAround(m, q);
    }
  }

  lemma {:induction false} LStripAround(p: string, t: string)
    requires AllSpace(p) && (|t| == 0 || !IsSpace(t[0]) || AllSpace(t))
    ensures |t| > 0 && !IsSpace(t[0]) ==> LStrip(p + t) == t
    ensures AllSpace(t) ==> LStrip(p + t) == ""
  {
    if |p| == 0 {
      assert p + t == t;
      if AllSpace(t) { LStripAllSpace(t); }
    } else {
      assert (p + t)[1..] == p[1..] + t;
      LStripAround(p[1..], t);
    }
  }

  lemma {:induction false} LStripAllSpace(t: string)
    requires AllSpace(t)
    ensures LStrip(t) == ""
  {
    if |t| > 0 { LStripAllSpace(t[1..]); }
  }

  lemma LStripKeeps(t: string)
    requires |t| > 0 && !IsSpace(t[0])
    ensures LStrip(t) == t
  {
  }

  lemma {:induction false} RStripAllSpace(t: string)
    requires AllSpace(t)
    ensures RStrip(t) == ""
  {
    if |t| > 0 { RStripAllSpace(t[..|t| - 1]); }
  }

  lemma {:induction false} RStripAround(m: string, q: string)
    requires |m| > 0 && !IsSpace(m[|m| - 1]) && AllSpace(q)
    ensures RStrip(m + q) == m
  {
    if |q| == 0 {
      assert m + q == m;
    } else {
      assert (m + q)[..|m + q| - 1] == m + q[..|q| - 1];
      RStripAround(m, q[..|q| - 1]);
    }
  }

  lemma StripStripped(m: string)
    requires Stripped(m)
    ensures Strip(m) == m
  {
    StripAround("", m, "");
    assert "" + m + "" == m;
  }

  lemma {:induction false} RStripRStripped(m: string)
    requires RStripped(m)
    ensures RStrip(m) == m
  {
  }

  /** Every string is its strip with whitespace around it. */
  lemma StripDecompose(x: string) returns (p: string, q: string)
    ensures x == p + Strip(x) + q && AllSpace(p) && AllSpace(q) && Stripped(Strip(x))
  {
    var l := LStrip(x);
    p := LStripPrefix(x);
    q := RStripSuffix(l);
    var m := RStrip(l);
    assert x == p + m + q by {
      assert x == p + (m + q);
    }
  }

  /** `s` is the whitespace `lstrip` removes followed by what it keeps. */
  lemma LStripPrefix(s: string) returns (p: string)
    ensures s == p + LStrip(s) && AllSpace(p) && (|LStrip(s)| == 0 || !IsSpace(LStrip(s)[0]))
  {
    LStripSpec(s);
    p := s[..|s| - |LStrip(s)|];
  }

  /** `s` is what `rstrip` keeps followed by the whitespace it removes; the
      kept part starts where `s` does. */
  lemma RStripSuffix(s: string) returns (q: string)
    ensures s == RStrip(s) + q && AllSpace(q) && RStripped(RStrip(s))
    ensures |RStrip(s)| > 0 ==> RStrip(s)[0] == s[0]
  {
    RStripSpec(s);
    q := s[|RStrip(s)|..];
  }

  /** Stripping after a right strip is stripping. */
  lemma StripRStrip(x: string)
    ensures Strip(RStrip(x)) == Strip(x)
  {
    var p, q := StripDecompose(x);
    var m := Strip(x);
    if |m| == 0 {
      assert x == p + q;
      assert AllSpace(x) by { assert forall i :: 0 <= i < |x| ==> x[i] == if i < |p| then p[i] else q[i - |p|]; }
      RStripAllSpace(x);
    } else {
      assert x == (p + m) + q;
      RStripAround(p + m, q);
      StripAround(p, m, "");
      assert p + m + "" == p + m;
    }
  }

  predicate StartsWith(s: string, prefix: string) {
    |prefix| <= |s| && s[..|prefix|] == prefix
  }

  predicate EndsWith(s: string, suffix: string) {
    |suffix| <= |s| && s[|s| - |suffix|..] == suffix
  }

  /** `s.removeprefix(prefix)`. */
  function RemovePrefix(s: string, prefix: string): (r: string)
    ensures StartsWith(s, prefix) ==> s == prefix + r
    ensures !StartsWith(s, prefix) ==> r == s
  {
    if StartsWith(s, prefix) then s[|prefix|..] else s
  }

  /** `s.removesuffix(suffix)`; Python leaves `s` alone when `suffix` is empty. */
  function RemoveSuffix(s: string, suffix: string): (r: string)
    ensures |suffix| > 0 && EndsWith(s, suffix) ==> s == r + suffix
    ensures |suffix| == 0 || !EndsWith(s, suffix) ==> r == s
  {
    if |suffix| > 0 && EndsWith(s, suffix) then s[..|s| - |suffix|] else s
  }

  /** `s.find(c)`, with `|s|` standing for "not found". */
  function IndexOf(s: string, c: char): (i: nat)
    ensures i <= |s|
    ensures i < |s| <==> c in s
    ensures i < |s| ==> s[i] == c
    ensures forall j :: 0 <= j < i ==> s[j] != c
  {
    if |s| == 0 then 0
    else if s[0] == c then 0
    else 1 + IndexOf(s[1..], c)
  }

  /** `s.replace(c, '')` for a one-character `c`. */
  function RemoveAll(s: string, c: char): (r: string)
    ensures c !in r
    ensures forall x :: x in r <==> x in s && x != c
  {
    if |s| == 0 then ""
    else if s[0] == c then RemoveAll(s[1..], c)
    else [s[0]] + RemoveAll(s[1..], c)
  }

  /** `'\n'.join(lines)`. */
  function JoinLines(lines: seq<string>): string {
    if |lines| == 0 then ""
    else if |lines| == 1 then lines[0]
    else lines[0] + "\n" + JoinLines(lines[1..])
  }

  /** `re.split(r'\r\n|\r|\n', s)`: at every position the two-character
      separator is preferred, and there is always at least one piece. */
  function SplitLines(s: string): (r: seq<string>)
    ensures |r| >= 1
    ensures forall k :: 0 <= k < |r| ==> NoBreak(r[k])
  {
    if |s| == 0 then [""]
    else if s[0] == '\r' && |s| >= 2 && s[1] == '\n' then [""] + SplitLines(s[2..])
    else if IsBreak(s[0]) then [""] + SplitLines(s[1..])
    else
      var rest := SplitLines(s[1..]);
      [[s[0]] + rest[0]] + rest[1..]
  }

  /** A piece without separators is glued to the first piece of what follows. */
  lemma {:induction false} SplitLinesPrefix(a: string, t: string)
    requires NoBreak(a)
    ensures SplitLines(a + t) == [a + SplitLines(t)[0]] + SplitLines(t)[1..]
  {
    if |a| > 0 {
      assert (a + t)[0] == a[0];
      assert (a + t)[1..] == a[1..] + t;
      SplitLinesPrefix(a[1..], t);
      assert [a[0]] + (a[1..] + SplitLines(t)[0]) == a + SplitLines(t)[0];
    } else {
      assert a + t == t;
      assert a + SplitLines(t)[0] == SplitLines(t)[0];
      assert SplitLines(t) == [SplitLines(t)[0]] + SplitLines(t)[1..];
    }
  }

  /** Splitting undoes joining when no line holds a separator. */
  lemma {:induction false} SplitJoin(lines: seq<string>)
    requires |lines| >= 1
    requires forall k :: 0 <= k < |lines| ==> NoBreak(lines[k])
    ensures SplitLines(JoinLines(lines)) == lines
  {
    if |lines| == 1 {
      SplitLinesPrefix(lines[0], "");
      assert lines[0] + "" == lines[0];
    } else {
      var rest := JoinLines(lines[1..]);
      SplitJoin(lines[1..]);
      assert lines[0] + "\n" + rest == lines[0] + ("\n" + rest);
      SplitLinesPrefix(lines[0], "\n" + rest);
      assert ("\n" + rest)[1..] == rest;
      assert SplitLines("\n" + rest) == [""] + lines[1..];
      assert lines[0] + "" == lines[0];
      assert lines == [lines[0]] + lines[1..];
    }
  }

  /** Joining undoes splitting when the text has no carriage return. */
  lemma {:induction false} JoinSplit(s: string)
    requires '\r' !in s
    ensures JoinLines(SplitLines(s)) == s
  {
    if |s| == 0 {
    } else if s[0] == '\n' {
      assert '\r' !in s[1..] by { assert forall i :: 0 <= i < |s| - 1 ==> s[1..][i] == s[i + 1]; }
      JoinSplit(s[1..]);
      assert s == "\n" + s[1..];
    } else {
      assert '\r' !in s[1..] by { assert forall i :: 0 <= i < |s| - 1 ==> s[1..][i] == s[i + 1]; }
      JoinSplit(s[1..]);
      var rest := SplitLines(s[1..]);
      if |rest| == 1 {
        assert s == [s[0]] + rest[0];
      } else {
        assert rest == [rest[0]] + rest[1..];
        assert JoinLines(rest) == rest[0] + "\n" + JoinLines(rest[1..]);
        assert s == [s[0]] + s[1..];
      }
    }
  }
}
