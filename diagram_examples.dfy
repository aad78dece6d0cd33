/**
 * Worked examples of the diagram clean-up on concrete replies.  Each fact
 * about the literal texts sits in a small lemma of its own.
 */
module DiagramExamples {
  import opened JsText
  import opened DiagramCleanup

  /** The first declaration of the collapse example. */
  lemma ExampleOpening()
    ensures DeclAt("flowchart LR\nA-->B\n", 0)
  {
    assert WhitespaceEnd("flowchart LR\nA-->B\n", 9) == 10;
  }

  /** The second declaration of the collapse example. */
  lemma ExampleClosing()
    ensures DeclAt("flowchart TB", 0) && DeclEnd("flowchart TB", 0) == 12
  {
    assert WhitespaceEnd("flowchart TB", 9) == 10;
  }

  /** How the texts of the collapse example are put together. */
  lemma CollapseExampleText()
    ensures "flowchart LR\nA-->B\n" + ("flowchart TB" + "\nC-->D") == "flowchart LR\nA-->B\nflowchart TB\nC-->D"
    ensures "flowchart TB" + "\nC-->D" == "flowchart TB\nC-->D"
    ensures 'f' !in "\nC-->D"
  {
  }

  /** Two declarations collapse to the second; nothing stood before the first. */
  lemma CollapseExample()
    ensures Collapse("flowchart LR\nA-->B\nflowchart TB\nC-->D") == "flowchart TB\nC-->D"
  {
    ExampleOpening();
    ExampleClosing();
    CollapseExampleText();
    CollapseToLast("flowchart LR\nA-->B\n", "flowchart TB", "\nC-->D");
  }

  /** How the text of the preamble example is put together. */
  lemma PreambleExampleText()
    ensures "Here is the diagram: A-->B" == "Here is the " + ("diagram:" + (" " + "A-->B"))
    ensures forall j :: 0 <= j < 12 ==> IsLetterOrSpace("Here is the "[j])
    ensures AllWhitespace(" ") && !IsWhitespace("A-->B"[0])
  {
  }

  /** The preamble of the clean-up example. */
  lemma ExamplePreamble()
    ensures StripPreamble("Here is the diagram: A-->B") == "A-->B"
  {
    PreambleExampleText();
    StripLeadIn("Here is the ", " ", "A-->B");
  }

  /** The characters of the clean-up example that matter. */
  lemma CleanupExampleText()
    ensures '`' !in "Here is the diagram: A-->B" && 'f' !in "A-->B"
    ensures !IsWhitespace("Here is the diagram: A-->B"[0]) && !IsWhitespace("Here is the diagram: A-->B"[25])
    ensures !IsWhitespace("A-->B"[0]) && !IsWhitespace("A-->B"[4])
    ensures "flowchart LR\n" + "A-->B" == "flowchart LR\nA-->B"
  {
  }

  /** An explanatory sentence in front of the diagram is dropped and the declaration is put back. */
  lemma CleanupExample()
    ensures Cleanup("Here is the diagram: A-->B") == "flowchart LR\nA-->B"
  {
    var s := "Here is the diagram: A-->B";
    CleanupExampleText();
    TrimKeeps(s);
    ExamplePreamble();
    CollapseWithoutF("A-->B");
    TrimKeeps("A-->B");
  }
}
