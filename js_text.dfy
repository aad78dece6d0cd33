/**
 * The JavaScript string built-ins the editor and the diagram route rely on,
 * written out over `seq<char>`: the `\s` character class (which is also the
 * set `String.prototype.trim` strips), `startsWith`, `trim`, `split('\n')`,
 * `join('\n')`, and `replace` of a literal pattern with the empty string
 * under the `g` flag.
 */
module JsText {

  /** JavaScript's `\s`: the WhiteSpace and LineTerminator code points. */
  predicate IsWhitespace(c: char) {
    c == '\t' || c == '\n' || c == '\U{B}' || c == '\U{C}' || c == '\r' || c == ' ' ||
    c == '\U{A0}' || c == '\U{1680}' || ('\U{2000}' <= c <= '\U{200A}') ||
    c == '\U{2028}' || c == '\U{2029}' || c == '\U{202F}' || c == '\U{205F}' ||
    c == '\U{3000}' || c == '\U{FEFF}'
  }

  predicate AllWhitespace(s: string) {
    forall i :: 0 <= i < |s| ==> IsWhitespace(s[i])
  }

  /** `s.startsWith(p)` */
  predicate StartsWith(s: string, p: string) {
    |p| <= |s| && s[..|p|] == p
  }

  /** The end of the run of whitespace that starts at `i`. */
  function WhitespaceEnd(s: string, i: nat): (e: nat)
    requires i <= |s|
    ensures i <= e <= |s|
    ensures forall j {:trigger IsWhitespace(s[j])} :: i <= j < e ==> IsWhitespace(s[j])
    ensures e == |s| || !IsWhitespace(s[e])
    decreases |s| - i
  {
    if i < |s| && IsWhitespace(s[i]) then WhitespaceEnd(s, i + 1) else i
  }

  /** The start of the run of whitespace that ends at `j`, looking no further back than `lo`. */
  function WhitespaceStart(s: string, lo: nat, j: nat): (b: nat)
    requires lo <= j <= |s|
    ensures lo <= b <= j
    ensures forall k :: b <= k < j ==> IsWhitespace(s[k])
    ensures b == lo || !IsWhitespace(s[b - 1])
    decreases j
  {
    if lo < j && IsWhitespace(s[j - 1]) then WhitespaceStart(s, lo, j - 1) else j
  }

  /** Where `s.trim()` starts: after the leading whitespace. */
  function TrimFrom(s: string): nat {
    WhitespaceEnd(s, 0)
  }

  /** Where `s.trim()` stops: before the trailing whitespace, and never before it starts. */
  function TrimTo(s: string): (b: nat)
    ensures TrimFrom(s) <= b <= |s|
  {
    WhitespaceStart(s, TrimFrom(s), |s|)
  }

  /** `s.trim()`: empty exactly when `s` is whitespace only. */
  function Trim(s: string): (r: string)
    ensures r == [] <==> AllWhitespace(s)
  {
    var a, b := TrimFrom(s), TrimTo(s);
    assert a == |s| || a < b by {
      if a < |s| {
        assert IsWhitespace(s[a]) || a < b;
      }
    }
    assert a < b ==> !IsWhitespace(s[a]);
    s[a..b]
  }

  /**
   * What `trim` keeps is the slice between its two indices: everything
   * cut off either side is whitespace, and what is kept neither starts
   * nor ends with whitespace.
   */
  lemma TrimShape(s: string)
    ensures Trim(s) == s[TrimFrom(s)..TrimTo(s)]
    ensures forall j :: 0 <= j < TrimFrom(s) ==> IsWhitespace(s[j])
    ensures forall j :: TrimTo(s) <= j < |s| ==> IsWhitespace(s[j])
    ensures TrimFrom(s) < TrimTo(s) ==> !IsWhitespace(s[TrimFrom(s)]) && !IsWhitespace(s[TrimTo(s) - 1])
  {
  }

  /** Text that neither starts nor ends with whitespace is its own trim. */
  lemma TrimKeeps(s: string)
    requires s == [] || (!IsWhitespace(s[0]) && !IsWhitespace(s[|s| - 1]))
    ensures Trim(s) == s
  {
    if s != [] {
      assert TrimFrom(s) == 0;
      assert TrimTo(s) == |s|;
    }
  }

  /** `s.split('\n')`: never empty; `''` splits into `['']`. */
  function Split(s: string): (r: seq<string>)
    ensures |r| >= 1
    ensures forall i :: 0 <= i < |r| ==> '\n' !in r[i]
    decreases |s|
  {
    if s == [] then [""]
    else
      var rest := Split(s[1..]);
      if s[0] == '\n' then [""] + rest
      else [[s[0]] + rest[0]] + rest[1..]
  }

  /** `lines.join('\n')`: no lines join to `''`, and a single line is joined without a separator. */
  function Join(lines: seq<string>): (r: string)
    ensures |lines| == 0 ==> r == ""
    ensures |lines| == 1 ==> r == lines[0]
    decreases |lines|
  {
    if |lines| == 0 then ""
    else if |lines| == 1 then lines[0]
    else lines[0] + "\n" + Join(lines[1..])
  }

  /** Joining the pieces of a split gives back the text. */
  lemma {:induction false} JoinSplit(s: string)
    ensures Join(Split(s)) == s
    decreases |s|
  {
    if s != [] {
      JoinSplit(s[1..]);
      var rest := Split(s[1..]);
      if s[0] == '\n' {
        assert Split(s) == [""] + rest;
        assert Join([""] + rest) == "" + "\n" + Join(rest) by {
          assert ([""] + rest)[1..] == rest;
        }
        assert s == [s[0]] + s[1..];
      } else {
        var first := [s[0]] + rest[0];
        assert Split(s) == [first] + rest[1..];
        if |rest| == 1 {
          assert Join(Split(s)) == first;
        } else {
          assert Join(rest) == rest[0] + "\n" + Join(rest[1..]);
          assert ([first] + rest[1..])[1..] == rest[1..];
          assert Join(Split(s)) == first + "\n" + Join(rest[1..]);
        }
        assert s == [s[0]] + s[1..];
      }
    }
  }

  /** A line without a newline splits into itself, and splits off in front of a newline. */
  lemma {:induction false} SplitLine(w: string, t: string)
    requires '\n' !in w
    ensures Split(w) == [w]
    ensures Split(w + "\n" + t) == [w] + Split(t)
    decreases |w|
  {
    if w == [] {
      assert ("" + "\n" + t)[1..] == t;
    } else {
      SplitLine(w[1..], t);
      assert (w + "\n" + t)[1..] == w[1..] + "\n" + t;
      assert [w[0]] + w[1..] == w;
    }
  }

  /** Splitting the join of newline-free lines gives back the lines. */
  lemma {:induction false} SplitJoin(lines: seq<string>)
    requires |lines| >= 1
    requires forall i :: 0 <= i < |lines| ==> '\n' !in lines[i]
    ensures Split(Join(lines)) == lines
    decreases |lines|
  {
    if |lines| == 1 {
      SplitLine(lines[0], "");
    } else {
      SplitJoin(lines[1..]);
      SplitLine(lines[0], Join(lines[1..]));
      assert [lines[0]] + lines[1..] == lines;
    }
  }

  /** Adding the divisor does not change the remainder. */
  lemma ModShift(a: nat, p: nat)
    requires p > 0
    ensures (a + p) % p == a % p
  {
    var k := (a + p) / p - a / p - 1;
    assert k * p == (a + p) / p * p - a / p * p - p;
    assert k * p == a % p - (a + p) % p;
  }

  /**
   * `s.replace(/pat/g, '')` for a pattern without special characters:
   * a left-to-right scan that deletes each leftmost, non-overlapping
   * occurrence of `pat`.  Text in which the pattern cannot even begin
   * passes through unchanged.
   */
  function RemoveAll(s: string, pat: string): (r: string)
    requires pat != []
    ensures |r| <= |s|
    ensures pat[0] !in s ==> r == s
    ensures (|s| - |r|) % |pat| == 0
    ensures (forall i :: 0 <= i < |s| ==> !StartsWith(s[i..], pat)) ==> r == s
    decreases |s|
  {
    if s == [] then []
    else if StartsWith(s, pat) then
      assert s[0..] == s;
      var rest := RemoveAll(s[|pat|..], pat);
      ModShift(|s| - |pat| - |rest|, |pat|);
      rest
    else [s[0]] + RemoveAll(s[1..], pat)
  }
}
