/**
 * A worked document: an introduction before the first heading, a blank
 * line in front of a heading, and a heading line with nothing after `# `.
 */
module SectionExamples {
  import opened JsText
  import opened Options
  import opened SectionParser

  /** Which of the document's lines are heading lines, and which are whitespace only. */
  lemma ExampleLines()
    ensures !IsHeadingLine("intro") && IsHeadingLine("# A") && !IsHeadingLine("x")
    ensures !IsHeadingLine("") && IsHeadingLine("# ") && !IsHeadingLine("y")
    ensures AllWhitespace("") && !AllWhitespace("x") && !AllWhitespace("y")
  {
  }

  /** The headings the two heading lines give. */
  lemma ExampleHeadings()
    ensures HeadingText("# A") == "A" && HeadingText("# ") == ""
  {
    HeadingTextStrips("#", ' ', "A");
    HeadingTextStrips("#", ' ', "");
  }

  /**
   * The introduction is dropped, the blank line before `# ` is dropped,
   * and `# ` opens a section whose heading is empty.
   */
  lemma ParseExample()
    ensures SectionsOf(["intro", "# A", "x", "", "# ", "y"]) == [Section("A", "x"), Section("", "y")]
  {
    var lines := ["intro", "# A", "x", "", "# ", "y"];
    ExampleLines();
    ExampleHeadings();
    var second := Scan(lines, 4, Some("A"), ["x"]);
    assert Scan(lines, 5, Some(""), []) == [Section("", "y")] by {
      assert Scan(lines, 5, Some(""), []) == Scan(lines, 6, Some(""), ["y"]);
    }
    assert second == [Section("A", "x")] + [Section("", "y")];
    assert Scan(lines, 0, None, []) == second by {
      assert Scan(lines, 0, None, []) == Scan(lines, 1, None, []);
      assert Scan(lines, 1, None, []) == Scan(lines, 2, Some("A"), []);
      assert Scan(lines, 2, Some("A"), []) == Scan(lines, 3, Some("A"), ["x"]);
      assert Scan(lines, 3, Some("A"), ["x"]) == second;
    }
    ScanSections(lines, 0);
  }

  /** The document as text: its lines joined with newlines, none holding a newline. */
  lemma ExampleText()
    ensures Join(["intro", "# A", "x", "", "# ", "y"]) == "intro\n# A\nx\n\n# \ny"
    ensures forall k :: 0 <= k < 6 ==> '\n' !in ["intro", "# A", "x", "", "# ", "y"][k]
  {
  }

  /** The same document, parsed from its text. */
  lemma ParseTextExample()
    ensures Parse("intro\n# A\nx\n\n# \ny") == [Section("A", "x"), Section("", "y")]
  {
    ExampleText();
    SplitJoin(["intro", "# A", "x", "", "# ", "y"]);
    ParseExample();
  }
}
