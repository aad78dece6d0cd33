/**
 * The clean-up the diagram route applies to the model's reply, step by step:
 * `trim`, deleting every "```mermaid" and then every "```", deleting an
 * explanatory preamble up to the word "diagram", collapsing repeated
 * flowchart declarations, `trim` again, and putting "flowchart LR\n" in
 * front of text that does not start with "flowchart".
 */
module DiagramCleanup {
  import opened JsText
  import opened Options

  /** Three backticks start at index `i`. */
  predicate FenceAt(s: string, i: nat) {
    i + 3 <= |s| && s[i] == '`' && s[i + 1] == '`' && s[i + 2] == '`'
  }

  /** No "```" anywhere in `s`. */
  predicate NoFence(s: string) {
    forall i :: 0 <= i < |s| ==> !FenceAt(s, i)
  }

  /** Deleting "```" from text that does not start with "``" leaves text that does not start with "``". */
  lemma RemoveFencesHead(t: string)
    requires |t| < 2 || t[0] != '`' || t[1] != '`'
    ensures var r := RemoveAll(t, "```"); |r| < 2 || r[0] != '`' || r[1] != '`'
  {
    if t != [] {
      assert !StartsWith(t, "```");
      var u := t[1..];
      if t[0] == '`' && u != [] {
        assert !StartsWith(u, "```");
      }
    }
  }

  /** After deleting every "```" from left to right, none is left, not even one the deletions bring together. */
  lemma {:induction false} RemoveFencesLeavesNone(s: string)
    ensures NoFence(RemoveAll(s, "```"))
    decreases |s|
  {
    if s != [] {
      if StartsWith(s, "```") {
        RemoveFencesLeavesNone(s[3..]);
      } else {
        var t := s[1..];
        var rest := RemoveAll(t, "```");
        var r := [s[0]] + rest;
        assert RemoveAll(s, "```") == r;
        RemoveFencesLeavesNone(t);
        if s[0] == '`' {
          assert |t| < 2 || t[0] != '`' || t[1] != '`';
          RemoveFencesHead(t);
        }
        forall i | 0 <= i < |r|
          ensures !FenceAt(r, i)
        {
          if i > 0 {
            assert !FenceAt(rest, i - 1);
          }
        }
      }
    }
  }

  /** A suffix of text without "```" has none. */
  lemma NoFenceSuffix(s: string, a: nat)
    requires a <= |s| && NoFence(s)
    ensures NoFence(s[a..])
  {
    var t := s[a..];
    forall i | 0 <= i < |t|
      ensures !FenceAt(t, i)
    {
      assert !FenceAt(s, a + i);
    }
  }

  /** A prefix of text without "```" has none. */
  lemma NoFencePrefix(s: string, b: nat)
    requires b <= |s| && NoFence(s)
    ensures NoFence(s[..b])
  {
    var t := s[..b];
    forall i | 0 <= i < |t|
      ensures !FenceAt(t, i)
    {
      assert !FenceAt(s, i);
    }
  }

  /** A slice of text without "```" has none. */
  lemma NoFenceSlice(s: string, a: nat, b: nat)
    requires a <= b <= |s| && NoFence(s)
    ensures NoFence(s[a..b])
  {
    var t := s[a..b];
    forall i | 0 <= i < |t|
      ensures !FenceAt(t, i)
    {
      assert !FenceAt(s, a + i);
    }
  }

  /** Two texts without "```" make none when joined, unless backticks meet at the seam. */
  lemma NoFenceConcat(a: string, b: string)
    requires NoFence(a) && NoFence(b)
    requires a == [] || b == [] || a[|a| - 1] != '`' || b[0] != '`'
    ensures NoFence(a + b)
  {
    var t := a + b;
    forall i | 0 <= i < |t|
      ensures !FenceAt(t, i)
    {
      if i >= |a| {
        assert !FenceAt(b, i - |a|);
      } else if i + 3 <= |a| {
        assert !FenceAt(a, i);
      }
    }
  }

  // The explanatory preamble: /^(Here is |This is |The )?([a-zA-Z\s]+)?diagram:?\s*/i

  /** A character of `[a-zA-Z\s]`; under the `i` flag the class is the same. */
  predicate IsLetterOrSpace(c: char) {
    'a' <= c <= 'z' || 'A' <= c <= 'Z' || IsWhitespace(c)
  }

  /** The end of the run of letters and whitespace that starts at `i`. */
  function LetterRunEnd(s: string, i: nat): (e: nat)
    requires i <= |s|
    ensures i <= e <= |s|
    ensures forall j :: i <= j < e ==> IsLetterOrSpace(s[j])
    ensures e == |s| || !IsLetterOrSpace(s[e])
    decreases |s| - i
  {
    if i < |s| && IsLetterOrSpace(s[i]) then LetterRunEnd(s, i + 1) else i
  }

  /** ASCII lower case; the `i` flag without `u` never folds other characters onto ASCII. */
  function LowerAscii(c: char): char {
    if 'A' <= c <= 'Z' then (c as int + 32) as char else c
  }

  /** "diagram", in any mix of case, starts at `k`. */
  predicate DiagramAt(s: string, k: nat) {
    k + 7 <= |s| && forall m :: 0 <= m < 7 ==> LowerAscii(s[k + m]) == "diagram"[m]
  }

  /** The largest `k <= j` at which "diagram" starts, if any. */
  function LastDiagramUpTo(s: string, j: nat): (r: Option<nat>)
    ensures r.Some? ==> r.value <= j && DiagramAt(s, r.value)
    ensures r.Some? ==> forall k :: r.value < k <= j ==> !DiagramAt(s, k)
    ensures r.None? ==> forall k :: 0 <= k <= j ==> !DiagramAt(s, k)
    decreases j
  {
    if DiagramAt(s, j) then Some(j)
    else if j == 0 then None
    else LastDiagramUpTo(s, j - 1)
  }

  /**
   * Where the preamble's "diagram" starts: `[a-zA-Z\s]+` is greedy, so it is
   * the last "diagram" that can be reached from the start over letters and
   * whitespace alone.  The optional `Here is |This is |The ` group is made of
   * letters and spaces, so it adds no matches.
   */
  function PreambleWord(s: string): (r: Option<nat>)
    ensures r.Some? ==> DiagramAt(s, r.value) && forall j :: 0 <= j < r.value ==> IsLetterOrSpace(s[j])
    ensures r.Some? ==> forall k :: r.value < k <= LetterRunEnd(s, 0) ==> !DiagramAt(s, k)
    ensures r.None? ==> forall k :: 0 <= k <= LetterRunEnd(s, 0) ==> !DiagramAt(s, k)
  {
    LastDiagramUpTo(s, LetterRunEnd(s, 0))
  }

  /** Where the text after the preamble starts: past "diagram", an optional ':' and any whitespace. */
  function PreambleEnd(s: string, k: nat): (e: nat)
    requires DiagramAt(s, k)
    ensures k + 7 <= e <= |s|
    ensures forall j :: k + 7 <= j < e ==> IsWhitespace(s[j]) || (j == k + 7 && s[j] == ':')
    ensures e == |s| || !IsWhitespace(s[e])
    ensures k + 7 < |s| && s[k + 7] == ':' ==> k + 8 <= e
  {
    var c := if k + 7 < |s| && s[k + 7] == ':' then k + 8 else k + 7;
    WhitespaceEnd(s, c)
  }

  /** `s.replace(/^(Here is |This is |The )?([a-zA-Z\s]+)?diagram:?\s*\/i, '')` */
  function StripPreamble(s: string): (r: string)
    ensures |r| <= |s| && r == s[|s| - |r|..]
    ensures r == s <==> PreambleWord(s).None?
    ensures PreambleWord(s).Some? ==> forall j :: 0 <= j < PreambleWord(s).value ==> IsLetterOrSpace(s[j])
    ensures PreambleWord(s).Some? ==> r == [] || !IsWhitespace(r[0])
    ensures PreambleWord(s).Some? ==> r == s[PreambleEnd(s, PreambleWord(s).value)..]
  {
    match PreambleWord(s)
    case None => s
    case Some(k) =>
      var e := PreambleEnd(s, k);
      assert |s[e..]| < |s|;
      s[e..]
  }

  /** A run of letters and whitespace that ends where the text stops having them. */
  lemma {:induction false} LetterRunEndIs(s: string, i: nat, e: nat)
    requires i <= e < |s|
    requires forall j :: i <= j < e ==> IsLetterOrSpace(s[j])
    requires !IsLetterOrSpace(s[e])
    ensures LetterRunEnd(s, i) == e
    decreases e - i
  {
    if i < e {
      LetterRunEndIs(s, i + 1, e);
    }
  }

  /** A run of whitespace that ends where the text stops having it. */
  lemma {:induction false} WhitespaceEndIs(s: string, i: nat, e: nat)
    requires i <= e <= |s|
    requires forall j :: i <= j < e ==> IsWhitespace(s[j])
    requires e == |s| || !IsWhitespace(s[e])
    ensures WhitespaceEnd(s, i) == e
    decreases e - i
  {
    if i < e {
      WhitespaceEndIs(s, i + 1, e);
    }
  }

  /** With no 'd' or 'D' in `(k, j]`, the last "diagram" up to `j` is the one at `k`. */
  lemma {:induction false} LastDiagramIs(s: string, k: nat, j: nat)
    requires k <= j && DiagramAt(s, k)
    requires forall q :: k < q <= j && q < |s| ==> LowerAscii(s[q]) != 'd'
    ensures LastDiagramUpTo(s, j) == Some(k)
    decreases j - k
  {
    if k < j {
      assert !DiagramAt(s, j) by {
        if j < |s| {
          assert LowerAscii(s[j + 0]) != "diagram"[0];
        }
      }
      LastDiagramIs(s, k, j - 1);
    }
  }

  /** The characters of a lead-in followed by "diagram:". */
  lemma LeadInChars(lead: string, rest: string)
    ensures var s := lead + ("diagram:" + rest);
      forall j :: 0 <= j < |lead| + 8 ==> s[j] == if j < |lead| then lead[j] else "diagram:"[j - |lead|]
  {
  }

  /** The run of letters and whitespace of a lead-in followed by "diagram:" ends at the ':'. */
  lemma LeadInRun(lead: string, rest: string)
    requires forall j :: 0 <= j < |lead| ==> IsLetterOrSpace(lead[j])
    ensures var s := lead + ("diagram:" + rest);
      LetterRunEnd(s, 0) == |lead| + 7 && s[|lead| + 7] == ':'
  {
    LeadInChars(lead, rest);
    LetterRunEndIs(lead + ("diagram:" + rest), 0, |lead| + 7);
  }

  /** After a lead-in of letters and whitespace, the preamble's "diagram" is the one that ends it. */
  lemma LeadInWord(lead: string, rest: string)
    requires forall j :: 0 <= j < |lead| ==> IsLetterOrSpace(lead[j])
    ensures var s := lead + ("diagram:" + rest);
      PreambleWord(s) == Some(|lead|) && s[|lead| + 7] == ':'
  {
    var s := lead + ("diagram:" + rest);
    var n := |lead|;
    LeadInRun(lead, rest);
    LeadInChars(lead, rest);
    assert DiagramAt(s, n);
    LastDiagramIs(s, n, n + 7);
  }

  /** What follows "diagram:" after a lead-in. */
  lemma AfterLeadIn(lead: string, rest: string)
    ensures var s := lead + ("diagram:" + rest);
      s[|lead| + 8..] == rest && forall j :: 0 <= j < |rest| ==> s[|lead| + 8 + j] == rest[j]
  {
    var s := lead + ("diagram:" + rest);
    assert s[|lead|..] == "diagram:" + rest;
    assert s[|lead| + 8..] == s[|lead|..][8..];
  }

  /** The whitespace run after "diagram:" ends where `body` begins. */
  lemma WhitespaceAfterLeadIn(lead: string, ws: string, body: string)
    requires AllWhitespace(ws)
    requires body == [] || !IsWhitespace(body[0])
    ensures var s := lead + ("diagram:" + (ws + body));
      WhitespaceEnd(s, |lead| + 8) == |lead| + 8 + |ws|
  {
    var rest := ws + body;
    var p := lead + "diagram:";
    assert lead + ("diagram:" + rest) == p + rest;
    if body != [] {
      assert rest[|ws|] == body[0];
    }
    WhitespaceEndIs(rest, 0, |ws|);
    WhitespaceEndAfter(p, rest, 0);
  }

  /** The whitespace run after position `i` of `t` does not depend on what precedes `t`. */
  lemma {:induction false} WhitespaceEndAfter(p: string, t: string, i: nat)
    requires i <= |t|
    ensures WhitespaceEnd(p + t, |p| + i) == |p| + WhitespaceEnd(t, i)
    decreases |t| - i
  {
    if i < |t| {
      assert (p + t)[|p| + i] == t[i];
      if IsWhitespace(t[i]) {
        WhitespaceEndAfter(p, t, i + 1);
      }
    }
  }

  /**
   * A lead-in of letters and whitespace, then "diagram:" and whitespace:
   * stripping the preamble leaves exactly what follows.
   */
  lemma StripLeadIn(lead: string, ws: string, body: string)
    requires forall j :: 0 <= j < |lead| ==> IsLetterOrSpace(lead[j])
    requires AllWhitespace(ws)
    requires body == [] || !IsWhitespace(body[0])
    ensures StripPreamble(lead + ("diagram:" + (ws + body))) == body
  {
    var rest := ws + body;
    var s := lead + ("diagram:" + rest);
    var n := |lead|;
    LeadInWord(lead, rest);
    AfterLeadIn(lead, rest);
    WhitespaceAfterLeadIn(lead, ws, body);
    assert PreambleEnd(s, n) == n + 8 + |ws|;
    assert s[n + 8 + |ws|..] == s[n + 8..][|ws|..];
    assert rest[|ws|..] == body;
  }

  /** `if (!t.startsWith('flowchart')) t = 'flowchart LR\n' + t` */
  function EnsureDeclaration(t: string): (r: string)
    ensures StartsWith(r, "flowchart")
    ensures |t| <= |r| && r[|r| - |t|..] == t
    ensures r == t <==> StartsWith(t, "flowchart")
    ensures !StartsWith(t, "flowchart") ==> r == "flowchart LR\n" + t
  {
    if StartsWith(t, "flowchart") then t
    else
      var r := "flowchart LR\n" + t;
      assert r[..9] == "flowchart";
      assert r[|r| - |t|..] == t;
      r
  }

  // Declarations: /flowchart\s+(LR|TB)[\s\S]*?(?=flowchart\s+(LR|TB))/g

  /** "flowchart" starts at index `i`. */
  predicate FlowchartAt(s: string, i: nat) {
    i + 9 <= |s| &&
    s[i] == 'f' && s[i + 1] == 'l' && s[i + 2] == 'o' && s[i + 3] == 'w' && s[i + 4] == 'c' &&
    s[i + 5] == 'h' && s[i + 6] == 'a' && s[i + 7] == 'r' && s[i + 8] == 't'
  }

  /** `LR|TB` matches at index `i`. */
  predicate DirectionAt(s: string, i: nat) {
    i + 2 <= |s| && ((s[i] == 'L' && s[i + 1] == 'R') || (s[i] == 'T' && s[i + 1] == 'B'))
  }

  /** `flowchart\s+(LR|TB)` matches at index `i`: case-sensitive, with no word boundary on either side. */
  predicate DeclAt(s: string, i: nat) {
    FlowchartAt(s, i) && i + 9 < WhitespaceEnd(s, i + 9) && DirectionAt(s, WhitespaceEnd(s, i + 9))
  }

  /** Where the declaration at `i` ends. */
  function DeclEnd(s: string, i: nat): (e: nat)
    requires DeclAt(s, i)
    ensures i + 12 <= e <= |s|
  {
    WhitespaceEnd(s, i + 9) + 2
  }

  /** Inside a declaration there is no 'f' after its first character. */
  lemma DeclInterior(s: string, i: nat, p: nat)
    requires DeclAt(s, i) && i < p < DeclEnd(s, i)
    ensures s[p] != 'f'
  {
    var w := WhitespaceEnd(s, i + 9);
    if i + 9 <= p < w {
      assert IsWhitespace(s[p]);
    }
  }

  /** A declaration starts with 'f'. */
  lemma DeclStart(s: string, p: nat)
    ensures DeclAt(s, p) ==> s[p] == 'f'
  {
  }

  /** Declarations never overlap: none starts inside another. */
  lemma DeclsApart(s: string, i: nat, p: nat)
    requires DeclAt(s, i) && i < p < DeclEnd(s, i)
    ensures !DeclAt(s, p)
  {
    DeclInterior(s, i, p);
    DeclStart(s, p);
  }

  /** A run of whitespace ends at the same place in two texts that agree on it and on the character that ends it. */
  lemma {:induction false} WhitespaceEndShift(x: string, a: nat, y: string, b: nat)
    requires a <= |x| && b <= |y|
    requires WhitespaceEnd(x, a) < |x| && WhitespaceEnd(x, a) - a + b < |y|
    requires forall k :: a <= k <= WhitespaceEnd(x, a) ==> y[k - a + b] == x[k]
    ensures WhitespaceEnd(y, b) == WhitespaceEnd(x, a) - a + b
    decreases |x| - a
  {
    assert y[a - a + b] == x[a];
    if IsWhitespace(x[a]) {
      WhitespaceEndShift(x, a + 1, y, b + 1);
    }
  }

  /** Whether a declaration matches depends only on the characters it spans. */
  lemma DeclShift(x: string, i: nat, y: string, j: nat)
    requires DeclAt(x, i)
    requires j + (DeclEnd(x, i) - i) <= |y|
    requires forall k :: i <= k < DeclEnd(x, i) ==> y[k - i + j] == x[k]
    ensures DeclAt(y, j) && DeclEnd(y, j) - j == DeclEnd(x, i) - i
  {
    WhitespaceEndShift(x, i + 9, y, j + 9);
  }

  /** The first declaration at or after `j`. */
  function NextDecl(s: string, j: nat): (r: Option<nat>)
    ensures r.Some? ==> j <= r.value < |s| && DeclAt(s, r.value)
    ensures r.Some? ==> forall p: nat :: j <= p < r.value ==> !DeclAt(s, p)
    ensures r.None? ==> forall p: nat :: j <= p < |s| ==> !DeclAt(s, p)
    decreases |s| - j
  {
    if |s| <= j then None
    else if !DeclAt(s, j) then NextDecl(s, j + 1)
    else Some(j)
  }

  /** The last declaration before `j`. */
  function LastDeclBefore(s: string, j: nat): (r: Option<nat>)
    ensures r.Some? ==> r.value < j && DeclAt(s, r.value)
    ensures r.Some? ==> forall p :: r.value < p < j ==> !DeclAt(s, p)
    ensures r.None? ==> forall p :: 0 <= p < j ==> !DeclAt(s, p)
    decreases j
  {
    if j == 0 then None
    else if DeclAt(s, j - 1) then Some(j - 1)
    else LastDeclBefore(s, j - 1)
  }

  /** What the collapse leaves: the text before the first declaration, then everything from the last one on. */
  function Collapse(s: string): string {
    match NextDecl(s, 0)
    case None => s
    case Some(f) =>
      var l := LastDeclBefore(s, |s|);
      assert l.Some? && f <= l.value;
      s[..f] + s[l.value..]
  }

  /**
   * The global replace scanning from index `i`: a match starts at a
   * declaration, and `[\s\S]*?` stops at the first declaration that starts
   * after it ends; the match is deleted and the scan resumes where it ended.
   * Where no match starts, one character is copied.
   */
  function CollapseFrom(s: string, i: nat): (r: string)
    requires i <= |s|
    ensures |r| <= |s| - i
    decreases |s| - i
  {
    if i == |s| then []
    else if DeclAt(s, i) && NextDecl(s, DeclEnd(s, i)).Some? then
      CollapseFrom(s, NextDecl(s, DeclEnd(s, i)).value)
    else [s[i]] + CollapseFrom(s, i + 1)
  }

  /** `t.replace(/flowchart\s+(LR|TB)[\s\S]*?(?=flowchart\s+(LR|TB))/g, '')` */
  function CollapseDeclarations(s: string): (r: string)
    ensures |r| <= |s|
  {
    CollapseFrom(s, 0)
  }

  /** Past the last declaration the scan copies the rest. */
  lemma {:induction false} CollapseCopies(s: string, i: nat)
    requires i <= |s|
    requires forall p :: i <= p < |s| ==> !DeclAt(s, p)
    ensures CollapseFrom(s, i) == s[i..]
    decreases |s| - i
  {
    if i < |s| {
      CollapseCopies(s, i + 1);
      assert [s[i]] + s[i + 1..] == s[i..];
    }
  }

  /** From a declaration on, the scan deletes up to the last declaration and copies the rest. */
  lemma {:induction false} CollapseFromDecl(s: string, i: nat)
    requires DeclAt(s, i)
    ensures LastDeclBefore(s, |s|).Some?
    ensures CollapseFrom(s, i) == s[LastDeclBefore(s, |s|).value..]
    decreases |s| - i
  {
    var next := NextDecl(s, DeclEnd(s, i));
    if next.Some? {
      CollapseFromDecl(s, next.value);
    } else {
      forall p | i < p < |s|
        ensures !DeclAt(s, p)
      {
        if p < DeclEnd(s, i) {
          DeclsApart(s, i, p);
        }
      }
      CollapseCopies(s, i + 1);
      assert [s[i]] + s[i + 1..] == s[i..];
    }
  }

  /** Before the first declaration the scan copies. */
  lemma {:induction false} CollapseBeforeFirst(s: string, i: nat, f: nat)
    requires i <= f < |s| && NextDecl(s, 0) == Some(f)
    ensures CollapseFrom(s, i) == s[i..f] + CollapseFrom(s, f)
    decreases f - i
  {
    if i < f {
      CollapseBeforeFirst(s, i + 1, f);
      assert [s[i]] + s[i + 1..f] == s[i..f];
    }
  }

  /** The regex replace leaves exactly what `Collapse` describes. */
  lemma CollapseScan(s: string)
    ensures CollapseDeclarations(s) == Collapse(s)
  {
    match NextDecl(s, 0)
    case None =>
      CollapseCopies(s, 0);
    case Some(f) =>
      CollapseBeforeFirst(s, 0, f);
      CollapseFromDecl(s, f);
  }

  /** At most one declaration in `s`. */
  predicate AtMostOneDecl(s: string) {
    forall p, q :: 0 <= p < |s| && 0 <= q < |s| && DeclAt(s, p) && DeclAt(s, q) ==> p == q
  }

  /** Text with at most one declaration passes through the collapse unchanged. */
  lemma CollapseKeepsSingle(s: string)
    requires AtMostOneDecl(s)
    ensures Collapse(s) == s
  {
    if NextDecl(s, 0).Some? {
      var f := NextDecl(s, 0).value;
      assert LastDeclBefore(s, |s|).value == f;
      assert s[..f] + s[f..] == s;
    }
  }

  /** A declaration past the seam of `a + b` is one of `b`. */
  lemma DeclAfterSeam(a: string, b: string, p: nat)
    requires |a| <= p && DeclAt(a + b, p)
    ensures DeclAt(b, p - |a|)
  {
    var x := a + b;
    forall k | p <= k < DeclEnd(x, p)
      ensures b[k - p + (p - |a|)] == x[k]
    {
    }
    DeclShift(x, p, b, p - |a|);
  }

  /** A declaration before the seam of `a + b`, where `b` starts with 'f', is one of `a`. */
  lemma DeclBeforeSeam(a: string, b: string, p: nat)
    requires p < |a| && DeclAt(a + b, p)
    requires b != [] && b[0] == 'f'
    ensures DeclAt(a, p)
  {
    var x := a + b;
    if |a| < DeclEnd(x, p) {
      DeclInterior(x, p, |a|);
    }
    forall k | p <= k < DeclEnd(x, p)
      ensures a[k - p + p] == x[k]
    {
    }
    DeclShift(x, p, a, p);
  }

  /** A declaration of a prefix is one of the whole text. */
  lemma DeclOfPrefix(s: string, b: nat, p: nat)
    requires b <= |s| && DeclAt(s[..b], p)
    ensures DeclAt(s, p)
  {
    var x := s[..b];
    forall k | p <= k < DeclEnd(x, p)
      ensures s[k - p + p] == x[k]
    {
    }
    DeclShift(x, p, s, p);
  }

  /** A declaration of a suffix is one of the whole text. */
  lemma DeclOfSuffix(s: string, a: nat, p: nat)
    requires a <= |s| && DeclAt(s[a..], p)
    ensures DeclAt(s, a + p)
  {
    var x := s[a..];
    forall k | p <= k < DeclEnd(x, p)
      ensures s[k - p + (a + p)] == x[k]
    {
    }
    DeclShift(x, p, s, a + p);
  }

  /** In the collapsed text a declaration can only start where the first one of `s` did. */
  lemma CollapsedDeclAt(s: string, f: nat, l: nat, p: nat)
    requires NextDecl(s, 0) == Some(f) && LastDeclBefore(s, |s|) == Some(l)
    requires DeclAt(s[..f] + s[l..], p)
    ensures p == f
  {
    var a, b := s[..f], s[l..];
    if p > f {
      DeclAfterSeam(a, b, p);
      DeclOfSuffix(s, l, p - f);
    } else if p < f {
      DeclStart(s, l);
      DeclBeforeSeam(a, b, p);
      DeclOfPrefix(s, f, p);
    }
  }

  /** After the collapse at most one declaration remains. */
  lemma CollapseLeavesOne(s: string)
    ensures AtMostOneDecl(Collapse(s))
  {
    var r := Collapse(s);
    forall p, q | 0 <= p < |r| && 0 <= q < |r| && DeclAt(r, p) && DeclAt(r, q)
      ensures p == q
    {
      if NextDecl(s, 0).Some? {
        var f, l := NextDecl(s, 0).value, LastDeclBefore(s, |s|).value;
        assert r == s[..f] + s[l..];
        CollapsedDeclAt(s, f, l, p);
        CollapsedDeclAt(s, f, l, q);
      }
    }
  }

  /** With no declaration in `(q, b)`, the last one before `b` is the one at `q`. */
  lemma {:induction false} LastDeclIs(s: string, q: nat, b: nat)
    requires q < b <= |s| && DeclAt(s, q)
    requires forall p :: q < p < b ==> !DeclAt(s, p)
    ensures LastDeclBefore(s, b) == Some(q)
    decreases b - q
  {
    if b - 1 > q {
      LastDeclIs(s, q, b - 1);
    }
  }

  /** Where the declarations of `x + (d + t)` are, when `x` opens with one and `d` is one. */
  lemma JoinedDecls(x: string, d: string, t: string)
    requires DeclAt(x, 0) && DeclAt(d, 0) && DeclEnd(d, 0) == |d|
    ensures DeclAt(x + (d + t), 0)
    ensures DeclAt(x + (d + t), |x|) && DeclEnd(x + (d + t), |x|) == |x| + |d|
  {
    var s := x + (d + t);
    DeclShift(x, 0, s, 0);
    DeclShift(d, 0, s, |x|);
  }

  /** After the declaration `d`, text without an 'f' holds no declaration. */
  lemma NoDeclAfter(x: string, d: string, t: string)
    requires DeclAt(x + (d + t), |x|) && DeclEnd(x + (d + t), |x|) == |x| + |d| && 'f' !in t
    ensures forall p :: |x| < p < |x + (d + t)| ==> !DeclAt(x + (d + t), p)
  {
    var y := d + t;
    var s := x + y;
    forall p | |x| < p < |s|
      ensures !DeclAt(s, p)
    {
      if p < |x| + |d| {
        DeclsApart(s, |x|, p);
      } else {
        var k := p - |x|;
        assert s[p] == y[k];
        assert y[k] == t[k - |d|];
        DeclStart(s, p);
      }
    }
  }

  /**
   * Text that opens with a declaration and ends with a declaration `d` and
   * text without an 'f' collapses to that last declaration and what follows.
   */
  lemma CollapseToLast(x: string, d: string, t: string)
    requires DeclAt(x, 0) && DeclAt(d, 0) && DeclEnd(d, 0) == |d| && 'f' !in t
    ensures Collapse(x + (d + t)) == d + t
  {
    var s := x + (d + t);
    JoinedDecls(x, d, t);
    NoDeclAfter(x, d, t);
    LastDeclIs(s, |x|, |s|);
    assert s[|x|..] == d + t;
  }


  // The whole chain

  /** The text returned as the diagram, from the text of the model's reply. */
  function Cleanup(raw: string): (r: string)
    ensures StartsWith(r, "flowchart")
  {
    var unfenced := RemoveAll(RemoveAll(Trim(raw), "```mermaid"), "```");
    EnsureDeclaration(Trim(CollapseDeclarations(StripPreamble(unfenced))))
  }

  /** Text without a backtick has no "```". */
  lemma NoBacktickNoFence(s: string)
    requires '`' !in s
    ensures NoFence(s)
  {
    forall i | 0 <= i < |s|
      ensures !FenceAt(s, i)
    {
      assert s[i] in s;
    }
  }

  /** The declaration line put in front has no "```". */
  lemma DeclarationLineNoFence()
    ensures NoFence("flowchart LR\n")
  {
    NoBacktickNoFence("flowchart LR\n");
  }

  /** The collapse cannot bring backticks together: what follows the seam starts with 'f'. */
  lemma CollapseKeepsNoFence(s: string)
    requires NoFence(s)
    ensures NoFence(CollapseDeclarations(s))
  {
    CollapseScan(s);
    if NextDecl(s, 0).Some? {
      var f, l := NextDecl(s, 0).value, LastDeclBefore(s, |s|).value;
      NoFencePrefix(s, f);
      NoFenceSuffix(s, l);
      DeclStart(s, l);
      assert s[l..][0] == s[l];
      NoFenceConcat(s[..f], s[l..]);
    }
  }

  /** Stripping the preamble keeps a suffix, so it cannot create "```". */
  lemma StripKeepsNoFence(s: string)
    requires NoFence(s)
    ensures NoFence(StripPreamble(s))
  {
    var r := StripPreamble(s);
    var a := |s| - |r|;
    assert r == s[a..];
    NoFenceSuffix(s, a);
  }

  /** Trimming keeps a slice, so it cannot create "```". */
  lemma TrimKeepsNoFence(s: string)
    requires NoFence(s)
    ensures NoFence(Trim(s))
  {
    TrimShape(s);
    NoFenceSlice(s, TrimFrom(s), TrimTo(s));
  }

  /** The declaration put in front ends in a newline, so it cannot join with a backtick. */
  lemma EnsureKeepsNoFence(t: string)
    requires NoFence(t)
    ensures NoFence(EnsureDeclaration(t))
  {
    if !StartsWith(t, "flowchart") {
      DeclarationLineNoFence();
      NoFenceConcat("flowchart LR\n", t);
    }
  }

  /** The diagram text returned never contains "```". */
  lemma CleanupHasNoFence(raw: string)
    ensures NoFence(Cleanup(raw))
  {
    var unfenced := RemoveAll(RemoveAll(Trim(raw), "```mermaid"), "```");
    RemoveFencesLeavesNone(RemoveAll(Trim(raw), "```mermaid"));
    var stripped := StripPreamble(unfenced);
    StripKeepsNoFence(unfenced);
    var collapsed := CollapseDeclarations(stripped);
    CollapseKeepsNoFence(stripped);
    TrimKeepsNoFence(collapsed);
    EnsureKeepsNoFence(Trim(collapsed));
  }

  /** Text without an 'f' holds no declaration, so the collapse leaves it alone. */
  lemma CollapseWithoutF(s: string)
    requires 'f' !in s
    ensures CollapseDeclarations(s) == s
  {
    forall p | 0 <= p < |s|
      ensures !DeclAt(s, p)
    {
      DeclStart(s, p);
    }
    CollapseScan(s);
  }
}
