/** Concrete renderings and resolutions, checked by the verifier. */
module TomlExamples {
  import opened GoFormat
  import opened LineSplit
  import opened Toml

  lemma CompactExampleWithoutKey()
    ensures Error(DecodeError("bad value", 5, 0, "", "")) == "toml: line 5: bad value"
  {
    assert Dec(5) == "5";
  }

  lemma CompactExampleWithKey()
    ensures Error(DecodeError("bad value", 5, 0, "a.b", "")) == "toml: line 5 (last key parsed 'a.b'): bad value"
  {
    assert Dec(5) == "5";
    ConcatWithKey();
  }

  lemma ConcatWithKey()
    ensures "toml: line " + "5" + " (last key parsed '" + "a.b" + "'): " + "bad value"
      == "toml: line 5 (last key parsed 'a.b'): bad value"
  {
  }

  /** A trailing newline leaves a trailing empty line. */
  lemma SplitExample()
    ensures Split("line1\nline2\nline3\n") == ["line1", "line2", "line3", ""]
  {
    var ls := ["line1", "line2", "line3", ""];
    JoinSplit(ls);
    assert Join(ls) == "line1\nline2\nline3\n";
  }

  /** Offset 7 is byte 6, the first byte of "line2"; offsets 0 and 100 fall
      back to line 0, column 0; offset 19, one past the end, is the end of the
      trailing empty line. */
  lemma LocateExamples()
    ensures Locate(Split("line1\nline2\nline3\n"), 7) == Location(1, 0)
    ensures Locate(Split("line1\nline2\nline3\n"), 9) == Location(1, 2)
    ensures Locate(Split("line1\nline2\nline3\n"), 0) == Location(0, 0)
    ensures Locate(Split("line1\nline2\nline3\n"), 100) == Location(0, 0)
    ensures Locate(Split("line1\nline2\nline3\n"), 19) == Location(3, 0)
  {
    var ls := ["line1", "line2", "line3", ""];
    SplitExample();
    assert End(ls, 0) == 6 && End(ls, 1) == 12 && End(ls, 2) == 18 && End(ls, 3) == 19;
    ReachedIffWithinInput("line1\nline2\nline3\n", 100);
    LocatePastEnd("line1\nline2\nline3\n");
  }

  /** The key is quoted with double quotes and nothing escaped. */
  lemma KeyNoteExample()
    ensures KeyNote("x.y") == "; last key parsed was \"x.y\""
  {
    QuotePlain("x.y");
  }
}
