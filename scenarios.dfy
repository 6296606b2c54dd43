/** Concrete inputs whose decoding, alphabet and encoding the lemmas below
    prove: a heredoc read back, a heredoc that the end of the input closes,
    the alphabet of a heredoc, and a kind mismatch that `encode` refuses. */
module Scenarios {
  import opened Wrappers
  import opened Strings
  import opened OrderedDicts
  import opened Documents
  import opened Decoding
  import Encoding
  import Alphabets
  import RoundTrip

  /** The sections read from an empty start: one section holding one entry. */
  lemma OneEntry(name: string, key: string, v: string)
    ensures [] + [(name, [] + [(key, v)])] == [(name, [(key, v)])]
  {
    assert [] + [(key, v)] == [(key, v)];
  }

  /** `[s]`, then `key = <<<END`, two body lines and the closing `END`: one
      section `s` whose `key` holds the envelope `<<<END`, `hello`, `world`,
      `END` joined by newlines. */
  lemma DecodeHeredocExample(lines: seq<string>)
    requires lines == ["[s]", "key = <<<END", "hello", "world", "END", ""]
    ensures Decode(lines) == Ok(Document([], [("s", [("key", HeredocText("END", ["hello", "world"]))])]))
  {
    var v := HeredocText("END", ["hello", "world"]);
    HeredocExampleBody(lines, v);
    NoHeaders(lines);
  }

  lemma HeredocExampleBody(lines: seq<string>, v: string)
    requires lines == ["[s]", "key = <<<END", "hello", "world", "END", ""]
    requires v == HeredocText("END", ["hello", "world"])
    ensures DecodeBody(lines, 0, [], None) == Ok([("s", [("key", v)])])
  {
    var start: Sections := [] + [("s", [])];
    var done: Sections := [] + [("s", [] + [("key", v)])];
    RoundTrip.MarkerStep(lines, 0, [], None, "s", 1);
    HeredocEntryStep(lines, start);
    RoundTrip.StoreLast([], "s", [], "key", v);
    RoundTrip.SkipLine(lines, 5, done, Some("s"), 6);
    OneEntry("s", "key", v);
  }

  /** A document starting with a section marker has no headers. */
  lemma NoHeaders(lines: seq<string>)
    requires |lines| > 0 && lines[0] == "[s]"
    ensures Headers(lines) == []
  {
    StripStripped(lines[0]);
  }

  lemma HeredocEntryStep(lines: seq<string>, start: Sections)
    requires lines == ["[s]", "key = <<<END", "hello", "world", "END", ""] && start == [("s", [])]
    ensures DecodeBody(lines, 1, start, Some("s"))
      == DecodeBody(lines, 5, Store(start, "s", "key", HeredocText("END", ["hello", "world"])), Some("s"))
  {
    var body := lines[2..4];
    assert body == ["hello", "world"];
    HeredocEntryFacts();
    RoundTrip.DecodeHeredocEntry(lines, 1, start, "s", "key", "END", body, 5);
  }

  lemma HeredocEntryFacts()
    ensures RoundTrip.CanonicalKey("key") && RoundTrip.CanonicalHeredoc("END", ["hello", "world"])
    ensures "key" + " = " + ("<<<" + "END") == "key = <<<END"
  {
    var body := ["hello", "world"];
    StripStripped(body[0]);
    StripStripped(body[1]);
    assert HeredocBody("END", body);
  }

  /** The input ends inside a heredoc: the body loop stops at the end of the
      lines and the value is closed with its tag all the same. */
  lemma UnterminatedHeredocExample(lines: seq<string>)
    requires lines == ["[s]", "k = <<<END", "a"]
    ensures Decode(lines) == Ok(Document([], [("s", [("k", HeredocText("END", ["a"]))])]))
  {
    var v := HeredocText("END", ["a"]);
    UnterminatedBody(lines, v);
    NoHeaders(lines);
  }

  lemma UnterminatedBody(lines: seq<string>, v: string)
    requires lines == ["[s]", "k = <<<END", "a"] && v == HeredocText("END", ["a"])
    ensures DecodeBody(lines, 0, [], None) == Ok([("s", [("k", v)])])
  {
    var start: Sections := [] + [("s", [])];
    RoundTrip.MarkerStep(lines, 0, [], None, "s", 1);
    UnterminatedStep(lines, start);
    RoundTrip.StoreLast([], "s", [], "k", v);
    OneEntry("s", "k", v);
  }

  lemma UnterminatedStep(lines: seq<string>, start: Sections)
    requires lines == ["[s]", "k = <<<END", "a"] && start == [("s", [])]
    ensures BodyStep(lines, 1, start, Some("s")) == Next(3, Store(start, "s", "k", HeredocText("END", ["a"])), Some("s"))
  {
    RoundTrip.HeredocOpening("END");
    LiteralAssignment();
    RoundTrip.AssignmentLine("k", "<<<END");
    UnterminatedValue(lines);
  }

  lemma LiteralAssignment()
    ensures "k" + " = " + "<<<END" == "k = <<<END" && "<<<" + "END" == "<<<END"
  {
  }

  lemma UnterminatedValue(lines: seq<string>)
    requires lines == ["[s]", "k = <<<END", "a"]
    ensures HeredocValue(lines, 2, "<<<END") == (HeredocText("END", ["a"]), 3)
  {
    RoundTrip.HeredocOpening("END");
    StripStripped(lines[2]);
    assert HeredocEnd(lines, 2, "END") == 3;
    RStripRStripped(lines[2]);
    assert lines[2..3] == ["a"];
    assert RStripAll(["a"]) == ["a"];
    LiteralAssignment();
    assert ["<<<END"] + RStripAll(lines[2..3]) + ["END"] == ["<<<" + "END"] + ["a"] + ["END"];
  }

  /** A single heredoc `<<<END`, `AB`, `END` contributes `A` and `B` only. */
  lemma AlphabetExample()
    ensures Alphabets.Alphabet(Document([], [("s", [("k", HeredocText("END", ["AB"]))])])) == {'A', 'B'}
  {
    Alphabets.UnwrapHeredoc("END", ["AB"]);
    assert Alphabets.Concat(["AB"]) == "AB";
    assert Alphabets.CharSet("AB") == {'A', 'B'};
    var sec: Section := [("k", HeredocText("END", ["AB"]))];
    assert sec[..0] == [];
    var secs: Sections := [("s", sec)];
    assert secs[..0] == [];
  }

  /** A translated heredoc where the source has a plain value is refused. */
  lemma EncodeMismatchExample()
    ensures Encoding.Encode(Document([], [("game_mode", [("title", "<<<T\nx\nT")])]),
                            Document([], [("game_mode", [("title", "Title")])]))
      == Err(Encoding.ValueTypeIncorrect("game_mode", "title"))
  {
    var self: Sections := [("game_mode", [("title", "<<<T\nx\nT")])];
    var source: Sections := [("game_mode", [("title", "Title")])];
    assert source[..0] == [] && source[0].1[..0] == [];
    PositionIs(self, "game_mode", 0);
    PositionIs(self[0].1, "title", 0);
    assert "<<<T\nx\nT"[..3] == "<<<";
    assert Lookup(self, "game_mode", "title") == Some("<<<T\nx\nT");
  }
}
