/**
 * The editor's section parser: the document is split on '\n'; every line
 * that starts with '#' opens a section whose heading is that line without
 * its leading `#+\s`; the lines that follow are the section's body, except
 * that a whitespace-only line directly in front of a heading line is
 * dropped; lines before the first heading belong to no section.  The
 * editor also gives each section a random id, which is only ever tested
 * for being set; here "a section is open" is an `Option` of its heading.
 *
 * `SectionsOf` says declaratively what the sections are; `ParseSections`
 * is the editor's single pass with its accumulators, and `Scan` is what
 * that pass still has to emit from a given line on.
 */
module SectionParser {
  import opened JsText
  import opened Options

  datatype Section = Section(heading: string, content: string)

  /** `line.startsWith('#')` */
  predicate IsHeadingLine(line: string) {
    |line| > 0 && line[0] == '#'
  }

  lemma HeadingLineStartsWith(line: string)
    ensures StartsWith(line, "#") <==> IsHeadingLine(line)
  {
    if |line| > 0 && line[0] == '#' {
      assert line[..1] == "#";
    }
  }

  /** The number of '#' characters the line starts with. */
  function HashRun(line: string): (k: nat)
    ensures k <= |line|
    ensures forall j :: 0 <= j < k ==> line[j] == '#'
    ensures k < |line| ==> line[k] != '#'
    decreases |line|
  {
    if line != [] && line[0] == '#' then 1 + HashRun(line[1..]) else 0
  }

  /** `line.replace(/^#+\s/, '')` */
  function HeadingText(line: string): (h: string)
    ensures h != line <==> 1 <= HashRun(line) < |line| && IsWhitespace(line[HashRun(line)])
    ensures h != line ==> |h| == |line| - HashRun(line) - 1
  {
    var k := HashRun(line);
    if 1 <= k < |line| && IsWhitespace(line[k]) then line[k + 1..] else line
  }

  predicate AllHashes(s: string) {
    forall j :: 0 <= j < |s| ==> s[j] == '#'
  }

  /** One or more '#' and one whitespace character are stripped from the heading. */
  lemma {:induction false} HeadingTextStrips(hashes: string, c: char, rest: string)
    requires hashes != [] && AllHashes(hashes) && IsWhitespace(c)
    ensures HeadingText(hashes + [c] + rest) == rest
  {
    var line := hashes + [c] + rest;
    HashRunOf(hashes, [c] + rest);
    assert line == hashes + ([c] + rest);
    assert line[|hashes| + 1..] == rest;
  }

  lemma {:induction false} HashRunOf(hashes: string, tail: string)
    requires AllHashes(hashes) && tail != [] && tail[0] != '#'
    ensures HashRun(hashes + tail) == |hashes|
    decreases |hashes|
  {
    if hashes == [] {
      assert hashes + tail == tail;
    } else {
      assert (hashes + tail)[1..] == hashes[1..] + tail;
      HashRunOf(hashes[1..], tail);
    }
  }

  /**
   * When no run of '#' at the start is followed by whitespace (`#tag`,
   * `##`, a line without '#'), the line itself is the heading.
   */
  lemma HeadingTextKeeps(line: string)
    requires forall k :: 1 <= k < |line| && AllHashes(line[..k]) ==> !IsWhitespace(line[k])
    ensures HeadingText(line) == line
  {
    var k := HashRun(line);
    if 1 <= k < |line| {
      assert AllHashes(line[..k]);
    }
  }

  /** The first heading line at or after line `j`, or `|lines|` when there is none. */
  function NextHeading(lines: seq<string>, j: nat): (h: nat)
    requires j <= |lines|
    ensures j <= h <= |lines|
    ensures forall k :: j <= k < h ==> !IsHeadingLine(lines[k])
    ensures h < |lines| ==> IsHeadingLine(lines[h])
    decreases |lines| - j
  {
    if j == |lines| || IsHeadingLine(lines[j]) then j else NextHeading(lines, j + 1)
  }

  /**
   * The lines of a body that make up the content: all of them, except a
   * whitespace-only last line when the body is closed by a heading.
   */
  function BodyLines(body: seq<string>, closedByHeading: bool): seq<string> {
    if closedByHeading && |body| > 0 && AllWhitespace(body[|body| - 1]) then body[..|body| - 1] else body
  }

  /** The content lines of the section opened by heading line `h`: its body runs to the next heading. */
  function BodyOf(lines: seq<string>, h: nat): seq<string>
    requires h < |lines|
  {
    var e := NextHeading(lines, h + 1);
    BodyLines(lines[h + 1..e], e < |lines|)
  }

  /** The section a heading line opens. */
  function SectionOpenedAt(lines: seq<string>, h: nat): Section
    requires h < |lines|
  {
    Section(HeadingText(lines[h]), Join(BodyOf(lines, h)))
  }

  /** The indices of the heading lines from line `j` on, in increasing order. */
  function HeadingsFrom(lines: seq<string>, j: nat): (hs: seq<nat>)
    requires j <= |lines|
    ensures forall k :: 0 <= k < |hs| ==> j <= hs[k] < |lines|
    decreases |lines| - j
  {
    var h := NextHeading(lines, j);
    if h == |lines| then [] else [h] + HeadingsFrom(lines, h + 1)
  }

  /** The sections opened by the heading lines `hs`, in that order. */
  function Opened(lines: seq<string>, hs: seq<nat>): seq<Section>
    requires forall k :: 0 <= k < |hs| ==> hs[k] < |lines|
  {
    seq(|hs|, k requires 0 <= k < |hs| => SectionOpenedAt(lines, hs[k]))
  }

  /** The sections of a document given as its lines: the `k`-th one is opened by the `k`-th heading line. */
  function SectionsOf(lines: seq<string>): seq<Section> {
    Opened(lines, HeadingsFrom(lines, 0))
  }

  /** The sections of a markdown document. */
  function Parse(markdown: string): (r: seq<Section>)
    ensures |r| == HeadingCount(Split(markdown), 0, |Split(markdown)|)
  {
    SectionCount(Split(markdown));
    SectionsOf(Split(markdown))
  }

  /** The number of heading lines among `lines[a..b]`. */
  function HeadingCount(lines: seq<string>, a: nat, b: nat): nat
    requires a <= b <= |lines|
    decreases b - a
  {
    if a == b then 0 else (if IsHeadingLine(lines[a]) then 1 else 0) + HeadingCount(lines, a + 1, b)
  }

  /** The line after line `j`, or `''` after the last one. */
  function NextLine(lines: seq<string>, j: nat): string
    requires j < |lines|
  {
    if j == |lines| - 1 then "" else lines[j + 1]
  }

  /** The editor's rule for a body line: kept unless it is whitespace only and the next line is a heading. */
  predicate BodyLineKept(lines: seq<string>, j: nat)
    requires j < |lines|
  {
    !AllWhitespace(lines[j]) || !IsHeadingLine(NextLine(lines, j))
  }

  /** The lines among `lines[a..b]` that the rule keeps, in order. */
  function KeptFrom(lines: seq<string>, a: nat, b: nat): seq<string>
    requires a <= b <= |lines|
    decreases b - a
  {
    if a == b then []
    else (if BodyLineKept(lines, a) then [lines[a]] else []) + KeptFrom(lines, a + 1, b)
  }

  /** The section that is open, if any, with its content so far. */
  function Flush(current: Option<string>, content: seq<string>): seq<Section> {
    if current.Some? then [Section(current.value, Join(content))] else []
  }

  /**
   * What the single pass still emits from line `i` on, when `current` is
   * the open section (if any) and `content` its kept lines so far.
   */
  function Scan(lines: seq<string>, i: nat, current: Option<string>, content: seq<string>): seq<Section>
    requires i <= |lines|
    decreases |lines| - i
  {
    if i == |lines| then Flush(current, content)
    else if IsHeadingLine(lines[i]) then Flush(current, content) + Scan(lines, i + 1, Some(HeadingText(lines[i])), [])
    else if current.Some? && BodyLineKept(lines, i) then Scan(lines, i + 1, current, content + [lines[i]])
    else Scan(lines, i + 1, current, content)
  }

  /** Lines before a heading with no section open emit nothing. */
  lemma {:induction false} ScanPreamble(lines: seq<string>, j: nat)
    requires j <= |lines|
    ensures Scan(lines, j, None, []) == Scan(lines, NextHeading(lines, j), None, [])
    decreases |lines| - j
  {
    if j < |lines| && !IsHeadingLine(lines[j]) {
      ScanPreamble(lines, j + 1);
    }
  }

  /** Over the body lines up to line `e`, the open section gathers exactly the kept ones. */
  lemma {:induction false} ScanBody(lines: seq<string>, j: nat, e: nat, t: string, c: seq<string>)
    requires j <= e <= |lines| && NextHeading(lines, j) == e
    ensures Scan(lines, j, Some(t), c) == Scan(lines, e, Some(t), c + KeptFrom(lines, j, e))
    decreases e - j
  {
    if j < e {
      assert !IsHeadingLine(lines[j]);
      assert NextHeading(lines, j + 1) == e;
      var k := if BodyLineKept(lines, j) then [lines[j]] else [];
      assert Scan(lines, j, Some(t), c) == Scan(lines, j + 1, Some(t), c + k);
      assert KeptFrom(lines, j, e) == k + KeptFrom(lines, j + 1, e);
      ScanBody(lines, j + 1, e, t, c + k);
      assert c + k + KeptFrom(lines, j + 1, e) == c + (k + KeptFrom(lines, j + 1, e));
    } else {
      assert c + [] == c;
    }
  }

  /** At a heading line or the end, the open section is emitted and the scan goes on as with none open. */
  lemma ScanClose(lines: seq<string>, e: nat, t: string, c: seq<string>)
    requires e <= |lines| && (e == |lines| || IsHeadingLine(lines[e]))
    ensures Scan(lines, e, Some(t), c) == [Section(t, Join(c))] + Scan(lines, e, None, [])
  {
    if e == |lines| {
      assert Scan(lines, e, None, []) == [];
    } else {
      assert Scan(lines, e, None, []) == Scan(lines, e + 1, Some(HeadingText(lines[e])), []);
    }
  }

  /** Dropping the first line of a body of two or more lines does not change which last line is dropped. */
  lemma BodyLinesCons(body: seq<string>, closedByHeading: bool)
    requires |body| >= 2
    ensures BodyLines(body, closedByHeading) == [body[0]] + BodyLines(body[1..], closedByHeading)
  {
    var rest := body[1..];
    assert body[|body| - 1] == rest[|rest| - 1];
    assert body[..|body| - 1] == [body[0]] + rest[..|rest| - 1];
    assert body == [body[0]] + rest;
  }

  /**
   * The editor's line-by-line rule gives each body its content: every line
   * but a whitespace-only last one in front of a heading.
   */
  lemma {:induction false} KeptBody(lines: seq<string>, a: nat, e: nat)
    requires a <= e <= |lines| && NextHeading(lines, a) == e
    ensures KeptFrom(lines, a, e) == BodyLines(lines[a..e], e < |lines|)
    decreases e - a
  {
    if a < e {
      assert NextHeading(lines, a + 1) == e;
      KeptBody(lines, a + 1, e);
      var body := lines[a..e];
      assert body[0] == lines[a] && body[1..] == lines[a + 1..e];
      if a + 1 < e {
        assert NextLine(lines, a) == lines[a + 1];
        assert BodyLineKept(lines, a);
        BodyLinesCons(body, e < |lines|);
      } else {
        assert body == [lines[a]];
        assert KeptFrom(lines, a + 1, e) == [];
        if e < |lines| {
          assert NextLine(lines, a) == lines[e];
        } else {
          assert NextLine(lines, a) == "";
        }
      }
    }
  }

  /** Heading lines from `h + 1` on are those from the next heading on. */
  lemma HeadingsFromNext(lines: seq<string>, h: nat)
    requires h < |lines|
    ensures HeadingsFrom(lines, h + 1) == HeadingsFrom(lines, NextHeading(lines, h + 1))
  {
    var e := NextHeading(lines, h + 1);
    assert NextHeading(lines, e) == e;
  }

  lemma OpenedIndex(lines: seq<string>, hs: seq<nat>, k: nat)
    requires forall k :: 0 <= k < |hs| ==> hs[k] < |lines|
    requires k < |hs|
    ensures |Opened(lines, hs)| == |hs| && Opened(lines, hs)[k] == SectionOpenedAt(lines, hs[k])
  {
  }

  lemma OpenedCons(lines: seq<string>, h: nat, hs: seq<nat>)
    requires h < |lines| && forall k :: 0 <= k < |hs| ==> hs[k] < |lines|
    ensures Opened(lines, [h] + hs) == [SectionOpenedAt(lines, h)] + Opened(lines, hs)
  {
    var l, r := Opened(lines, [h] + hs), [SectionOpenedAt(lines, h)] + Opened(lines, hs);
    assert |l| == |r| == 1 + |hs|;
    forall k | 0 <= k < |l|
      ensures l[k] == r[k]
    {
      OpenedIndex(lines, [h] + hs, k);
      if k > 0 {
        assert ([h] + hs)[k] == hs[k - 1];
        OpenedIndex(lines, hs, k - 1);
      }
    }
  }

  /** The single pass, started with no section open at line `j`, emits the sections of the heading lines from `j` on. */
  lemma {:induction false} ScanSections(lines: seq<string>, j: nat)
    requires j <= |lines|
    ensures Scan(lines, j, None, []) == Opened(lines, HeadingsFrom(lines, j))
    decreases |lines| - j
  {
    var h := NextHeading(lines, j);
    ScanPreamble(lines, j);
    if h < |lines| {
      var e := NextHeading(lines, h + 1);
      var t := HeadingText(lines[h]);
      assert Scan(lines, h, None, []) == Scan(lines, h + 1, Some(t), []) by {
        assert Flush(None, []) == [];
      }
      ScanBody(lines, h + 1, e, t, []);
      KeptBody(lines, h + 1, e);
      assert [] + KeptFrom(lines, h + 1, e) == BodyOf(lines, h);
      ScanClose(lines, e, t, BodyOf(lines, h));
      ScanSections(lines, e);
      HeadingsFromNext(lines, h);
      OpenedCons(lines, h, HeadingsFrom(lines, h + 1));
    } else {
      assert Scan(lines, h, None, []) == [];
    }
  }

  /** Skipping lines that are not headings does not change where the next heading is. */
  lemma {:induction false} NextHeadingSkip(lines: seq<string>, a: nat, b: nat)
    requires a <= b <= |lines|
    requires forall k :: a <= k < b ==> !IsHeadingLine(lines[k])
    ensures NextHeading(lines, a) == NextHeading(lines, b)
    decreases b - a
  {
    if a < b {
      NextHeadingSkip(lines, a + 1, b);
    }
  }

  /** There are no headings between a line and the next heading. */
  lemma {:induction false} HeadingCountNone(lines: seq<string>, a: nat, m: nat)
    requires a <= |lines| && a <= m <= NextHeading(lines, a)
    ensures HeadingCount(lines, a, m) == 0
    decreases m - a
  {
    if a < m {
      assert NextHeading(lines, a + 1) == NextHeading(lines, a);
      HeadingCountNone(lines, a + 1, m);
    }
  }

  lemma {:induction false} HeadingCountSplit(lines: seq<string>, a: nat, m: nat, b: nat)
    requires a <= m <= b <= |lines|
    ensures HeadingCount(lines, a, b) == HeadingCount(lines, a, m) + HeadingCount(lines, m, b)
    decreases m - a
  {
    if a < m {
      HeadingCountSplit(lines, a + 1, m, b);
    }
  }

  /** From line `j` to `b`, one more heading is counted than from just after the next heading. */
  lemma HeadingCountStep(lines: seq<string>, j: nat, b: nat)
    requires j <= b <= |lines| && NextHeading(lines, j) < b
    ensures HeadingCount(lines, j, b) == 1 + HeadingCount(lines, NextHeading(lines, j) + 1, b)
  {
    var h := NextHeading(lines, j);
    HeadingCountSplit(lines, j, h, b);
    HeadingCountNone(lines, j, h);
  }

  lemma {:induction false} HeadingsFromCount(lines: seq<string>, j: nat)
    requires j <= |lines|
    ensures |HeadingsFrom(lines, j)| == HeadingCount(lines, j, |lines|)
    decreases |lines| - j
  {
    var h := NextHeading(lines, j);
    if h < |lines| {
      HeadingCountStep(lines, j, |lines|);
      HeadingsFromCount(lines, h + 1);
    } else {
      HeadingCountNone(lines, j, h);
    }
  }

  /** There are as many sections as lines that start with '#'. */
  lemma SectionCount(lines: seq<string>)
    ensures |SectionsOf(lines)| == HeadingCount(lines, 0, |lines|)
  {
    HeadingsFromCount(lines, 0);
  }

  lemma {:induction false} HeadingsFromLine(lines: seq<string>, i: nat, j: nat)
    requires i <= j < |lines| && IsHeadingLine(lines[j])
    ensures HeadingCount(lines, i, j) < |HeadingsFrom(lines, i)|
    ensures HeadingsFrom(lines, i)[HeadingCount(lines, i, j)] == j
    decreases j - i
  {
    var h := NextHeading(lines, i);
    if h == j {
      HeadingCountNone(lines, i, j);
    } else {
      HeadingCountStep(lines, i, j);
      HeadingsFromLine(lines, h + 1, j);
    }
  }

  /**
   * Sections come in document order: the heading line with `n` heading
   * lines before it opens section number `n`.
   */
  lemma SectionOrder(lines: seq<string>, j: nat)
    requires j < |lines| && IsHeadingLine(lines[j])
    ensures HeadingCount(lines, 0, j) < |SectionsOf(lines)|
    ensures SectionsOf(lines)[HeadingCount(lines, 0, j)] == SectionOpenedAt(lines, j)
  {
    HeadingsFromLine(lines, 0, j);
  }

  lemma {:induction false} HeadingsFromSource(lines: seq<string>, i: nat, k: nat)
    requires i <= |lines| && k < |HeadingsFrom(lines, i)|
    ensures IsHeadingLine(lines[HeadingsFrom(lines, i)[k]])
    ensures HeadingCount(lines, i, HeadingsFrom(lines, i)[k]) == k
    decreases |lines| - i
  {
    var h := NextHeading(lines, i);
    if k == 0 {
      HeadingCountNone(lines, i, h);
    } else {
      HeadingsFromSource(lines, h + 1, k - 1);
      HeadingCountStep(lines, i, HeadingsFrom(lines, i)[k]);
    }
  }

  /** Every section is opened by a heading line: the one with as many heading lines before it as the section's number. */
  lemma SectionSource(lines: seq<string>, k: nat)
    requires k < |SectionsOf(lines)|
    ensures exists j :: 0 <= j < |lines| && IsHeadingLine(lines[j]) && HeadingCount(lines, 0, j) == k
                        && SectionsOf(lines)[k] == SectionOpenedAt(lines, j)
  {
    HeadingsFromSource(lines, 0, k);
    var j := HeadingsFrom(lines, 0)[k];
    assert SectionsOf(lines)[k] == SectionOpenedAt(lines, j);
  }

  /** Of two adjacent heading lines, the first opens a section with empty content. */
  lemma AdjacentHeadings(lines: seq<string>, j: nat)
    requires j + 1 < |lines| && IsHeadingLine(lines[j]) && IsHeadingLine(lines[j + 1])
    ensures HeadingCount(lines, 0, j) < |SectionsOf(lines)|
    ensures SectionsOf(lines)[HeadingCount(lines, 0, j)] == Section(HeadingText(lines[j]), "")
  {
    SectionOrder(lines, j);
    assert NextHeading(lines, j + 1) == j + 1;
    assert BodyOf(lines, j) == [];
  }

  /** A document without a line that starts with '#' has no sections; `''` is one empty line. */
  lemma NoHeadingLines(markdown: string)
    requires forall k :: 0 <= k < |Split(markdown)| ==> !IsHeadingLine(Split(markdown)[k])
    ensures Parse(markdown) == []
  {
    var lines := Split(markdown);
    NextHeadingSkip(lines, 0, |lines|);
  }

  lemma {:induction false} NextHeadingShift(pre: seq<string>, lines: seq<string>, j: nat)
    requires j <= |lines|
    ensures NextHeading(pre + lines, |pre| + j) == |pre| + NextHeading(lines, j)
    decreases |lines| - j
  {
    if j < |lines| {
      assert (pre + lines)[|pre| + j] == lines[j];
      if !IsHeadingLine(lines[j]) {
        NextHeadingShift(pre, lines, j + 1);
      }
    }
  }

  lemma {:induction false} HeadingsFromShift(pre: seq<string>, lines: seq<string>, j: nat)
    requires j <= |lines|
    ensures |HeadingsFrom(pre + lines, |pre| + j)| == |HeadingsFrom(lines, j)|
    ensures forall k :: 0 <= k < |HeadingsFrom(lines, j)| ==>
              HeadingsFrom(pre + lines, |pre| + j)[k] == |pre| + HeadingsFrom(lines, j)[k]
    decreases |lines| - j
  {
    var h := NextHeading(lines, j);
    NextHeadingShift(pre, lines, j);
    if h < |lines| {
      HeadingsFromShift(pre, lines, h + 1);
    }
  }

  /** A section does not depend on the lines in front of its heading. */
  lemma OpenedShift(pre: seq<string>, lines: seq<string>, h: nat)
    requires h < |lines|
    ensures SectionOpenedAt(pre + lines, |pre| + h) == SectionOpenedAt(lines, h)
  {
    var all := pre + lines;
    var e := NextHeading(lines, h + 1);
    NextHeadingShift(pre, lines, h + 1);
    assert all[|pre| + h] == lines[h];
    assert all[|pre| + h + 1..|pre| + e] == lines[h + 1..e];
  }

  lemma OpenedShiftAll(pre: seq<string>, lines: seq<string>, hs: seq<nat>, hs': seq<nat>)
    requires forall k :: 0 <= k < |hs| ==> hs[k] < |lines|
    requires |hs'| == |hs| && forall k :: 0 <= k < |hs| ==> hs'[k] == |pre| + hs[k]
    ensures Opened(pre + lines, hs') == Opened(lines, hs)
  {
    forall k | 0 <= k < |hs|
      ensures Opened(pre + lines, hs')[k] == Opened(lines, hs)[k]
    {
      OpenedShiftAt(pre, lines, hs, hs', k);
    }
  }

  lemma OpenedShiftAt(pre: seq<string>, lines: seq<string>, hs: seq<nat>, hs': seq<nat>, k: nat)
    requires forall k :: 0 <= k < |hs| ==> hs[k] < |lines|
    requires |hs'| == |hs| && forall k :: 0 <= k < |hs| ==> hs'[k] == |pre| + hs[k]
    requires k < |hs|
    ensures |Opened(pre + lines, hs')| == |Opened(lines, hs)| == |hs|
    ensures Opened(pre + lines, hs')[k] == Opened(lines, hs)[k]
  {
    OpenedIndex(pre + lines, hs', k);
    OpenedIndex(lines, hs, k);
    OpenedShift(pre, lines, hs[k]);
  }

  /** Lines in front of the first heading line belong to no section: removing them changes nothing. */
  lemma Preamble(pre: seq<string>, lines: seq<string>)
    requires forall k :: 0 <= k < |pre| ==> !IsHeadingLine(pre[k])
    ensures SectionsOf(pre + lines) == SectionsOf(lines)
  {
    var all := pre + lines;
    assert forall k :: 0 <= k < |pre| ==> all[k] == pre[k];
    NextHeadingSkip(all, 0, |pre|);
    assert HeadingsFrom(all, 0) == HeadingsFrom(all, |pre|);
    HeadingsFromShift(pre, lines, 0);
    OpenedShiftAll(pre, lines, HeadingsFrom(lines, 0), HeadingsFrom(all, |pre|));
  }

  /**
   * A section's content splits back into the lines it was made of (one empty
   * line when there are none), and none of them starts with '#'.
   */
  lemma OpenedContent(lines: seq<string>, h: nat)
    requires h < |lines|
    requires forall k :: 0 <= k < |lines| ==> '\n' !in lines[k]
    ensures Split(SectionOpenedAt(lines, h).content) == if BodyOf(lines, h) == [] then [""] else BodyOf(lines, h)
    ensures forall k :: 0 <= k < |Split(SectionOpenedAt(lines, h).content)| ==>
              !IsHeadingLine(Split(SectionOpenedAt(lines, h).content)[k])
  {
    var body := BodyOf(lines, h);
    var e := NextHeading(lines, h + 1);
    assert forall k :: 0 <= k < |body| ==> body[k] == lines[h + 1 + k];
    if body != [] {
      SplitJoin(body);
    }
  }

  /** No line of any section's content starts with '#'. */
  lemma ContentHasNoHeadingLine(markdown: string, k: nat)
    requires k < |Parse(markdown)|
    ensures forall l :: 0 <= l < |Split(Parse(markdown)[k].content)| ==> !IsHeadingLine(Split(Parse(markdown)[k].content)[l])
  {
    var lines := Split(markdown);
    OpenedContent(lines, HeadingsFrom(lines, 0)[k]);
  }

  /**
   * The editor's heading lookup, `new Map(sections.map(s => [s.heading, s]))`:
   * entries go in in order, so a later section replaces an earlier one with
   * the same heading.
   */
  function HeadingMap(sections: seq<Section>): (m: map<string, Section>)
    ensures forall h :: h in m ==> m[h] in sections && m[h].heading == h
    decreases |sections|
  {
    if |sections| == 0 then map[]
    else HeadingMap(sections[..|sections| - 1])[sections[|sections| - 1].heading := sections[|sections| - 1]]
  }

  /** The keys of the heading map are exactly the headings of the sections. */
  lemma {:induction false} HeadingMapKeys(sections: seq<Section>)
    ensures forall h :: h in HeadingMap(sections) <==> exists k :: 0 <= k < |sections| && sections[k].heading == h
    decreases |sections|
  {
    var n := |sections|;
    if n > 0 {
      var init, last := sections[..n - 1], sections[n - 1];
      HeadingMapKeys(init);
      forall h
        ensures h in HeadingMap(sections) <==> exists k :: 0 <= k < n && sections[k].heading == h
      {
        if h in HeadingMap(init) {
          var k :| 0 <= k < n - 1 && init[k].heading == h;
          assert sections[k] == init[k];
        }
        if exists k :: 0 <= k < n && sections[k].heading == h {
          var k :| 0 <= k < n && sections[k].heading == h;
          if k < n - 1 {
            assert init[k] == sections[k];
          }
        }
      }
    }
  }

  /** A heading that no later section repeats finds its section: on duplicates the last one wins. */
  lemma {:induction false} HeadingMapLast(sections: seq<Section>, k: nat)
    requires k < |sections|
    requires forall l :: k < l < |sections| ==> sections[l].heading != sections[k].heading
    ensures sections[k].heading in HeadingMap(sections) && HeadingMap(sections)[sections[k].heading] == sections[k]
    decreases |sections|
  {
    var n := |sections|;
    var init := sections[..n - 1];
    if k < n - 1 {
      assert sections[k] == init[k];
      forall l | k < l < n - 1
        ensures init[l].heading != init[k].heading
      {
        assert init[l] == sections[l];
      }
      HeadingMapLast(init, k);
      assert sections[n - 1].heading != sections[k].heading;
    }
  }

  /** A heading line closes the open section, if any, and opens a new one. */
  lemma ScanHeading(lines: seq<string>, i: nat, sections: seq<Section>, current: Option<string>, content: seq<string>, all: seq<Section>)
    requires i < |lines| && IsHeadingLine(lines[i])
    requires sections + Scan(lines, i, current, content) == all
    ensures current.Some? ==>
      (sections + [Section(current.value, Join(content))]) + Scan(lines, i + 1, Some(HeadingText(lines[i])), []) == all
    ensures current.None? ==> sections + Scan(lines, i + 1, Some(HeadingText(lines[i])), []) == all
  {
    var rest := Scan(lines, i + 1, Some(HeadingText(lines[i])), []);
    assert Scan(lines, i, current, content) == Flush(current, content) + rest;
    if current.Some? {
      assert sections + ([Section(current.value, Join(content))] + rest) == (sections + [Section(current.value, Join(content))]) + rest;
    } else {
      assert Flush(current, content) + rest == rest;
    }
  }

  /** A body line the rule keeps joins the open section. */
  lemma ScanKeep(lines: seq<string>, i: nat, sections: seq<Section>, current: Option<string>, content: seq<string>, all: seq<Section>)
    requires i < |lines| && !IsHeadingLine(lines[i]) && current.Some? && BodyLineKept(lines, i)
    requires sections + Scan(lines, i, current, content) == all
    ensures sections + Scan(lines, i + 1, current, content + [lines[i]]) == all
  {
    assert Scan(lines, i, current, content) == Scan(lines, i + 1, current, content + [lines[i]]);
  }

  /** Any other line leaves the state as it is. */
  lemma ScanSkip(lines: seq<string>, i: nat, sections: seq<Section>, current: Option<string>, content: seq<string>, all: seq<Section>)
    requires i < |lines| && !IsHeadingLine(lines[i]) && !(current.Some? && BodyLineKept(lines, i))
    requires sections + Scan(lines, i, current, content) == all
    ensures sections + Scan(lines, i + 1, current, content) == all
  {
    assert Scan(lines, i, current, content) == Scan(lines, i + 1, current, content);
  }

  /** The `useEffect` body of the editor: one pass over the lines with an open section and its body. */
  method ParseSections(markdown: string) returns (sections: seq<Section>)
    ensures sections == Parse(markdown)
  {
    var lines := Split(markdown);
    sections := [];
    var current: Option<string> := None;
    var content: seq<string> := [];
    ghost var all := SectionsOf(lines);
    ScanSections(lines, 0);
    assert Scan(lines, 0, None, []) == all;
    var i := 0;
    while i < |lines|
      invariant 0 <= i <= |lines|
      invariant sections + Scan(lines, i, current, content) == all
      invariant current.None? ==> content == []
    {
      var line := lines[i];
      HeadingLineStartsWith(line);
      if StartsWith(line, "#") {
        ScanHeading(lines, i, sections, current, content, all);
        if current.Some? {
          sections := sections + [Section(current.value, Join(content))];
          content := [];
        }
        current := Some(HeadingText(line));
      } else if current.Some? {
        var isLastLine := i == |lines| - 1;
        var nextLine := if !isLastLine then lines[i + 1] else "";
        var isNextLineHeading := StartsWith(nextLine, "#");
        HeadingLineStartsWith(nextLine);
        if Trim(line) != "" || !isNextLineHeading {
          ScanKeep(lines, i, sections, current, content, all);
          content := content + [line];
        } else {
          ScanSkip(lines, i, sections, current, content, all);
        }
      } else {
        ScanSkip(lines, i, sections, current, content, all);
      }
      i := i + 1;
    }
    if current.Some? {
      sections := sections + [Section(current.value, Join(content))];
    }
  }
}
