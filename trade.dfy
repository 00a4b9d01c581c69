/**
 * `_parse_trade` of transactions/email.py: the details of a "trade executed"
 * e-mail. The text of the content element (with `<br>` turned into line breaks)
 * is normalised line by line, runs of blank lines are collapsed to one, and the
 * details are the text between the two anchors, without the "click here" lines.
 */
module TradeNotice {
  import opened Wrappers
  import opened Text
  import opened Regex
  import opened RegexFacts

  const Executed := "has been executed."
  const Adjust := "Note that you can adjust"

  /** `has been executed\.\s*(.*?)Note that you can adjust` under `re.DOTALL`. */
  const TradeAnchor := Anchored(Executed, Adjust)

  const ClickText := "You can click here to go to"

  /** `You can click here to go to.*?\n`. */
  const ClickLine := Regex([[Lit(ClickText), Rep(NotNewline, 0, false), Lit("\n")]])

  /** `re.sub(r" +", " ", line.strip())`: the line trimmed, every run of spaces
      made one space, and nothing else changed. */
  function NormalizeLine(line: string): (r: string)
    ensures Stripped(r)
    ensures SingleSpaced(r)
    ensures Outside(Blank, r) == Outside(Blank, Strip(line))
    ensures forall x :: 0 <= x < |r| && r[x] != ' ' ==> r[x] in Strip(line)
    ensures r == SqueezeRef(Blank, Strip(line))
  {
    SqueezeSpaces(Strip(line));
    Sub(Runs(Blank, 1), Strip(line), " ")
  }

  /** No two spaces in a row. */
  predicate SingleSpaced(r: string) {
    forall x :: 0 <= x < |r| - 1 ==> !(r[x] == ' ' && r[x + 1] == ' ')
  }

  lemma SqueezeSpaces(s: string)
    requires Stripped(s)
    ensures NonEmpty(Runs(Blank, 1))
    ensures var r := Sub(Runs(Blank, 1), s, " ");
      Stripped(r) &&
      SingleSpaced(r) &&
      Outside(Blank, r) == Outside(Blank, s) &&
      (forall x :: 0 <= x < |r| && r[x] != ' ' ==> r[x] in s) &&
      r == SqueezeRef(Blank, s)
  {
    Squeeze(Blank, s, 0);
    var r := Sub(Runs(Blank, 1), s, " ");
    assert s[0..] == s;
    assert SqueezeOf(Blank, s, 0, r);
    forall x | 0 <= x < |r| && r[x] != ' ' ensures r[x] in s {
      OutsideHas(Blank, r, x);
      OutsideFrom(Blank, s, r[x]);
    }
    if r != [] {
      assert r[0] == s[0] && r[|r| - 1] == s[|s| - 1];
    }
  }

  /** A double space between two words becomes one space; it does not vanish:
      `" Mike  Trout "` is normalised to `"Mike Trout"`. */
  lemma NormalizeDoubleSpace(a: string, b: string)
    requires a != [] && b != [] && !IsSpace(a[0]) && !IsSpace(b[|b| - 1])
    requires forall x :: 0 <= x < |a| ==> a[x] != ' '
    requires forall x :: 0 <= x < |b| ==> b[x] != ' '
    ensures NormalizeLine(a + "  " + b) == a + " " + b
  {
    var w := a + "  " + b;
    assert w[0] == a[0] && w[|w| - 1] == b[|b| - 1];
    StripStripped(w);
    SqueezeDoubleSpace(a, b, w);
  }

  lemma SqueezeDoubleSpace(a: string, b: string, w: string)
    requires w == a + "  " + b
    requires forall x :: 0 <= x < |a| ==> a[x] != ' '
    requires forall x :: 0 <= x < |b| ==> b[x] != ' '
    ensures SqueezeRef(Blank, w) == a + " " + b
  {
    var n := |a|;
    assert forall x :: 0 <= x < n ==> w[x] == a[x];
    assert forall x :: n + 2 <= x < |w| ==> w[x] == b[x - n - 2];
    SqueezeFromStep(Blank, w, 0, n, n + 2);
    SqueezeFromPlain(Blank, w, n + 2, |w|);
    assert w[0..n] == a && w[n + 2..|w|] == b;
    assert a + " " + (b + []) == a + " " + b;
  }

  function NormalizeLines(lines: seq<string>): (r: seq<string>)
    ensures |r| == |lines|
    ensures forall k :: 0 <= k < |lines| ==> r[k] == NormalizeLine(lines[k])
  {
    seq(|lines|, k requires 0 <= k < |lines| => NormalizeLine(lines[k]))
  }

  /** The blank-line collapse, line by line: a blank line is kept unless the line
      before it is blank too. */
  function Collapse(lines: seq<string>): seq<string> {
    if lines == [] then []
    else
      var n := |lines| - 1;
      Collapse(lines[..n]) + (if lines[n] == [] && n > 0 && lines[n - 1] == [] then [] else [lines[n]])
  }

  /** The non-blank lines, in order. */
  function NonBlank(lines: seq<string>): seq<string> {
    if lines == [] then []
    else
      var n := |lines| - 1;
      NonBlank(lines[..n]) + (if lines[n] == [] then [] else [lines[n]])
  }

  predicate NoDoubleBlank(lines: seq<string>) {
    forall k :: 0 <= k < |lines| - 1 ==> !(lines[k] == [] && lines[k + 1] == [])
  }

  /** The collapse ends on a blank line exactly when its input does. */
  lemma {:induction false} CollapseLast(lines: seq<string>)
    requires lines != []
    ensures Collapse(lines) != []
    ensures Collapse(lines)[|Collapse(lines)| - 1] == [] <==> lines[|lines| - 1] == []
  {
    var n := |lines| - 1;
    if n > 0 && lines[n] == [] && lines[n - 1] == [] {
      CollapseLast(lines[..n]);
      assert lines[..n][n - 1] == lines[n - 1];
    }
  }

  /** After the collapse no two blank lines are adjacent. */
  lemma {:induction false} CollapseNoDoubleBlank(lines: seq<string>)
    ensures NoDoubleBlank(Collapse(lines))
  {
    if lines != [] {
      var n := |lines| - 1;
      var pre := lines[..n];
      CollapseNoDoubleBlank(pre);
      var c := Collapse(pre);
      if pre != [] {
        CollapseLast(pre);
        assert pre[n - 1] == lines[n - 1];
      }
    }
  }

  /** The collapse drops blank lines only: the non-blank lines are all kept, in order. */
  lemma {:induction false} CollapseNonBlank(lines: seq<string>)
    ensures NonBlank(Collapse(lines)) == NonBlank(lines)
  {
    if lines != [] {
      var n := |lines| - 1;
      var pre := lines[..n];
      CollapseNonBlank(pre);
      var tail: seq<string> := if lines[n] == [] && n > 0 && lines[n - 1] == [] then [] else [lines[n]];
      NonBlankConcat(Collapse(pre), tail);
      if tail == [] {
        assert Collapse(pre) + tail == Collapse(pre);
      } else {
        assert NonBlank(tail) == NonBlank([] + tail);
      }
    }
  }

  lemma {:induction false} NonBlankConcat(a: seq<string>, b: seq<string>)
    ensures NonBlank(a + b) == NonBlank(a) + NonBlank(b)
    decreases |b|
  {
    if b == [] {
      assert a + b == a;
    } else {
      var n := |b| - 1;
      assert (a + b)[..|a + b| - 1] == a + b[..n];
      NonBlankConcat(a, b[..n]);
    }
  }

  /** Text without two adjacent blank lines comes through the collapse unchanged. */
  lemma {:induction false} CollapseKeepsSingleBlanks(lines: seq<string>)
    requires NoDoubleBlank(lines)
    ensures Collapse(lines) == lines
  {
    if lines != [] {
      var n := |lines| - 1;
      var pre := lines[..n];
      assert forall k :: 0 <= k < |pre| ==> pre[k] == lines[k];
      CollapseKeepsSingleBlanks(pre);
      assert pre + [lines[n]] == lines;
    }
  }

  /** Every line of the collapse is a line of its input. */
  lemma {:induction false} CollapseFrom(lines: seq<string>)
    ensures forall k :: 0 <= k < |Collapse(lines)| ==> Collapse(lines)[k] in lines
  {
    if lines != [] {
      var n := |lines| - 1;
      CollapseFrom(lines[..n]);
      assert forall x :: x in lines[..n] ==> x in lines;
    }
  }

  /** The normalised text of the trade e-mail, lines joined by line breaks. */
  function NormalizedText(fullText: string): string {
    Join(Collapse(NormalizeLines(Split(fullText, "\n"))), "\n")
  }

  /** The details found in the normalised text: `None` without the anchors,
      otherwise the stripped text between them with the "click here" lines removed. */
  function AnchoredDetails(full: string): (r: Option<string>)
    ensures r.Some? ==> Stripped(r.value)
  {
    MinLenAtom(ClickLine.branches[0], 0);
    match Search(TradeAnchor, full)
    case None => None
    case Some(m) => Some(Strip(Sub(ClickLine, Strip(Group(full, m, 1)), "")))
  }

  /** The parser's result: `None` without the content element, otherwise the
      details of its normalised text. */
  function TradeDetails(content: Option<string>): (r: Option<string>)
    ensures r.Some? ==> Stripped(r.value)
  {
    match content
    case None => None
    case Some(t) => AnchoredDetails(NormalizedText(t))
  }

  lemma CollapseSnoc(lines: seq<string>, i: nat)
    requires i < |lines|
    ensures Collapse(lines[..i + 1]) ==
      Collapse(lines[..i]) + (if lines[i] == [] && i > 0 && lines[i - 1] == [] then [] else [lines[i]])
  {
    assert lines[..i + 1][..i] == lines[..i];
  }

  /** The source's loop over the normalised lines with its `prev_empty` flag. */
  method CollapseBlankLines(lines: seq<string>) returns (result: seq<string>)
    ensures result == Collapse(lines)
  {
    result := [];
    var prevEmpty := false;
    for i := 0 to |lines|
      invariant result == Collapse(lines[..i])
      invariant prevEmpty == (i > 0 && lines[i - 1] == [])
    {
      CollapseSnoc(lines, i);
      var line := lines[i];
      if line == [] {
        if !prevEmpty {
          result := result + [line];
        }
        prevEmpty := true;
      } else {
        result := result + [line];
        prevEmpty := false;
      }
    }
    assert lines[..|lines|] == lines;
  }

  /** The parser: split into lines, normalise each, collapse the blank lines, join,
      then cut the details out between the anchors. */
  method ParseTrade(content: Option<string>) returns (r: Option<string>)
    ensures r == TradeDetails(content)
  {
    if content.None? {
      return None;
    }
    var lines := Split(content.value, "\n");
    var norm := NormalizeLines(lines);
    var result := CollapseBlankLines(norm);
    var fullText := Join(result, "\n");
    MinLenAtom(ClickLine.branches[0], 0);
    match Search(TradeAnchor, fullText)
    case None =>
      return None;
    case Some(m) =>
      var details := Strip(Group(fullText, m, 1));
      details := Strip(Sub(ClickLine, details, ""));
      return Some(details);
  }

  /** A normalised line has no line break when the line had none. */
  lemma NormalizeLineNoBreak(line: string)
    requires forall k :: 0 <= k < |line| ==> line[k] != '\n'
    ensures forall x :: 0 <= x < |NormalizeLine(line)| ==> NormalizeLine(line)[x] != '\n'
  {
    var r := NormalizeLine(line);
    var i, j := StripBounds(line);
    forall x | 0 <= x < |r| ensures r[x] != '\n' {
      if r[x] != ' ' {
        assert r[x] in line[i..j];
      }
    }
  }

  /** The lines of the normalised text: each one trimmed and without two spaces in
      a row, no two blank lines in a row, and the non-blank lines exactly the
      non-blank normalised lines of the input, in order. */
  lemma NormalizedTextLines(t: string)
    ensures var ls := Split(NormalizedText(t), "\n");
      ls == Collapse(NormalizeLines(Split(t, "\n"))) &&
      (forall k :: 0 <= k < |ls| ==> Stripped(ls[k]) && SingleSpaced(ls[k])) &&
      NoDoubleBlank(ls) &&
      NonBlank(ls) == NonBlank(NormalizeLines(Split(t, "\n")))
  {
    var lines := Split(t, "\n");
    var norm := NormalizeLines(lines);
    var c := Collapse(norm);
    assert NormalizedText(t) == Join(c, "\n");
    SplitNoBreak(lines);
    CollapsedLines(lines);
    CollapseLast(norm);
    SplitJoin(c, '\n');
    assert Split(NormalizedText(t), "\n") == c;
    CollapseNoDoubleBlank(norm);
    CollapseNonBlank(norm);
  }

  /** The pieces of a split at line breaks hold no line break. */
  lemma SplitNoBreak(ls: seq<string>)
    requires forall n :: 0 <= n < |ls| ==> !Contains(ls[n], "\n")
    ensures forall n, y :: 0 <= n < |ls| && 0 <= y < |ls[n]| ==> ls[n][y] != '\n'
  {
    forall n, y | 0 <= n < |ls| && 0 <= y < |ls[n]| ensures ls[n][y] != '\n' {
      assert ls[n][y..y + 1] == [ls[n][y]];
      assert !At(ls[n], "\n", y);
    }
  }

  /** The collapsed normalised lines are trimmed, single-spaced and, when the
      input lines hold no line break, free of line breaks. */
  lemma CollapsedLines(lines: seq<string>)
    requires forall n, y :: 0 <= n < |lines| && 0 <= y < |lines[n]| ==> lines[n][y] != '\n'
    ensures var c := Collapse(NormalizeLines(lines));
      forall n :: 0 <= n < |c| ==> Stripped(c[n]) && SingleSpaced(c[n])
    ensures var c := Collapse(NormalizeLines(lines));
      forall n, y :: 0 <= n < |c| && 0 <= y < |c[n]| ==> c[n][y] != '\n'
  {
    var norm := NormalizeLines(lines);
    var c := Collapse(norm);
    CollapseFrom(norm);
    forall n | 0 <= n < |c|
      ensures Stripped(c[n]) && SingleSpaced(c[n])
      ensures forall y :: 0 <= y < |c[n]| ==> c[n][y] != '\n'
    {
      var m :| 0 <= m < |norm| && norm[m] == c[n];
      NormalizeLineNoBreak(lines[m]);
    }
  }

  /** Leading white space of a slice does not change its strip. */
  lemma StripAfterSpaces(s: string, p: nat, q: nat, j: nat, g: string, t: string)
    requires p <= q <= j <= |s|
    requires forall x :: p <= x < q ==> IsSpace(s[x])
    requires g == s[q..j] && t == s[p..j]
    ensures Strip(g) == Strip(t)
  {
    assert forall k :: 0 <= k < q - p ==> t[k] == s[p + k];
    StripSkip(t, q - p);
    assert t[q - p..] == g;
  }

  /** The group of the anchor pattern, stripped, is the stripped text between the
      anchors, and the pattern matches exactly when both anchors are there. */
  lemma AnchoredGroup(full: string)
    ensures Search(TradeAnchor, full).None? <==> TextBetween(full, Executed, Adjust).None?
    ensures Search(TradeAnchor, full).Some? ==>
      Strip(Group(full, Search(TradeAnchor, full).value, 1)) == Strip(TextBetween(full, Executed, Adjust).value)
  {
    AnchoredGroupOf(Executed, Adjust, full);
  }

  lemma AnchoredGroupOf(a: string, b: string, full: string)
    requires b != [] && !IsSpace(b[0])
    ensures Search(Anchored(a, b), full).None? <==> TextBetween(full, a, b).None?
    ensures Search(Anchored(a, b), full).Some? ==>
      Strip(Group(full, Search(Anchored(a, b), full).value, 1)) == Strip(TextBetween(full, a, b).value)
  {
    AnchoredSearch(a, b, full);
    match Find(full, a)
    case None =>
    case Some(i) => AnchoredMatchStrip(a, b, full, i);
  }

  /** The same with `a` first found at `i`, stated on the match without the matcher. */
  lemma AnchoredMatchStrip(a: string, b: string, full: string, i: nat)
    requires b != [] && !IsSpace(b[0])
    requires Find(full, a) == Some(i)
    ensures i + |a| <= |full|
    ensures AnchoredMatch(a, b, full, i).None? <==> TextBetween(full, a, b).None?
    ensures AnchoredMatch(a, b, full, i).Some? ==>
      Strip(Group(full, AnchoredMatch(a, b, full, i).value, 1)) == Strip(TextBetween(full, a, b).value)
  {
    var p := i + |a|;
    AnchoredMatchGroup(a, b, full, i);
    TextBetweenFound(full, a, b, i);
    var g := FindFrom(full, b, p);
    if g.Some? {
      AnchoredStripFound(a, b, full, i, p, g.value);
    }
  }

  lemma TextBetweenFound(full: string, a: string, b: string, i: nat)
    requires Find(full, a) == Some(i)
    ensures i + |a| <= |full|
    ensures TextBetween(full, a, b) ==
      match FindFrom(full, b, i + |a|)
      case None => None
      case Some(j) => Some(full[i + |a|..j])
  {
  }

  lemma AnchoredStripFound(a: string, b: string, full: string, i: nat, p: nat, j: nat)
    requires b != [] && !IsSpace(b[0])
    requires Find(full, a) == Some(i) && p == i + |a| <= |full| && FindFrom(full, b, p) == Some(j)
    ensures AnchoredMatch(a, b, full, i).Some? && TextBetween(full, a, b).Some?
    ensures Strip(Group(full, AnchoredMatch(a, b, full, i).value, 1)) == Strip(TextBetween(full, a, b).value)
  {
    AnchoredMatchGroup(a, b, full, i);
    TextBetweenFound(full, a, b, i);
    var q := SpacesEnd(full, p);
    SpacesEndAll(full, p);
    var t := TextBetween(full, a, b).value;
    var gr := Group(full, AnchoredMatch(a, b, full, i).value, 1);
    StripAfterSpaces(full, p, q, j, gr, t);
  }

  /** The details are the stripped text between the first `has been executed.`
      and the first `Note that you can adjust` after it, with the "click here"
      lines removed (as `DropMarked` states character by character) and
      stripped again; nothing when an anchor is missing. */
  lemma AnchoredDetailsBetween(full: string)
    ensures AnchoredDetails(full) ==
      match TextBetween(full, Executed, Adjust)
      case None => None
      case Some(g) => Some(Strip(Sub(ClickLine, Strip(g), "")))
    ensures AnchoredDetails(full) ==
      match TextBetween(full, Executed, Adjust)
      case None => None
      case Some(g) => Some(Strip(DropMarked(ClickText, Strip(g))))
  {
    MinLenAtom(ClickLine.branches[0], 0);
    AnchoredGroup(full);
    match TextBetween(full, Executed, Adjust)
    case None =>
    case Some(g) =>
      ClickSub(Strip(g));
  }

  /** Details without a "click here" line pass the clean-up unchanged. */
  lemma ClickAbsent(d: string)
    requires !Contains(d, ClickText)
    ensures NonEmpty(ClickLine)
    ensures Sub(ClickLine, d, "") == d
  {
    var p := ClickLine.branches[0];
    MinLenAtom(p, 0);
    forall x | 0 <= x <= |d| ensures MatchAt(ClickLine, d, x).None? {
      assert !At(d, ClickText, x);
      assert p[0] == Lit(ClickText);
      assert ClickLine.branches[1..] == [];
      assert Branches(ClickLine.branches, d, x) == Branches(ClickLine.branches[1..], d, x);
    }
    SearchMiss(ClickLine, d);
    assert d[0..] == d;
  }

  /** The end of the line that starts at `j`: the first line break from `j` on,
      or the end of the text. */
  function LineEnd(d: string, j: nat): (e: nat)
    requires j <= |d|
    ensures j <= e <= |d|
    decreases |d| - j
  {
    if j < |d| && d[j] != '\n' then LineEnd(d, j + 1) else j
  }

  /** The line end is where the run of non-line-break characters stops. */
  lemma {:induction false} LineEndRun(d: string, j: nat)
    requires j <= |d|
    ensures LineEnd(d, j) == j + Run(NotNewline, d, j)
    decreases |d| - j
  {
    if j < |d| && d[j] != '\n' {
      LineEndRun(d, j + 1);
    }
  }

  /** `t` stands in `d` at `k`, compared character by character from `t[m]` on. */
  predicate MarkFrom(d: string, t: string, k: nat, m: nat)
    requires m <= |t| && k + |t| <= |d|
    decreases |t| - m
  {
    m == |t| || (d[k + m] == t[m] && MarkFrom(d, t, k, m + 1))
  }

  /** `t` stands in `d` at `k`: `At`, compared one character at a time. */
  predicate Mark(d: string, t: string, k: nat) {
    k + |t| <= |d| && MarkFrom(d, t, k, 0)
  }

  lemma {:induction false} MarkFromSlice(d: string, t: string, k: nat, m: nat)
    requires m <= |t| && k + |t| <= |d|
    ensures MarkFrom(d, t, k, m) <==> d[k + m..k + |t|] == t[m..]
    decreases |t| - m
  {
    if m < |t| {
      MarkFromSlice(d, t, k, m + 1);
      assert d[k + m..k + |t|] == [d[k + m]] + d[k + m + 1..k + |t|];
      assert t[m..] == [t[m]] + t[m + 1..];
    }
  }

  lemma MarkAt(d: string, t: string, k: nat)
    ensures Mark(d, t, k) == At(d, t, k)
  {
    if k + |t| <= |d| {
      MarkFromSlice(d, t, k, 0);
      assert t[0..] == t;
    }
  }

  /** The "click here" clean-up stated character by character, for the marker
      text `t`, on `d[k..]`: each `t` and everything after it up to and including
      the next line break is dropped; a `t` that no line break follows is kept,
      and so is everything after it. */
  function DropFrom(t: string, d: string, k: nat): string
    requires k <= |d|
    decreases |d| - k
  {
    if k == |d| then []
    else if Mark(d, t, k) && LineEnd(d, k + |t|) < |d| then DropFrom(t, d, LineEnd(d, k + |t|) + 1)
    else if Mark(d, t, k) then d[k..]
    else [d[k]] + DropFrom(t, d, k + 1)
  }

  /** The clean-up of a whole text. */
  function DropMarked(t: string, d: string): string {
    DropFrom(t, d, 0)
  }

  /** At a marker that a line break follows, the rest of that line goes. */
  lemma DropAtMarked(t: string, d: string, k: nat, e: nat)
    requires k < |d| && At(d, t, k) && e == LineEnd(d, k + |t|) && e < |d|
    ensures DropFrom(t, d, k) == DropFrom(t, d, e + 1)
  {
    MarkAt(d, t, k);
  }

  /** A marker that no line break follows is kept, with everything after it. */
  lemma DropAtKept(t: string, d: string, k: nat)
    requires k < |d| && At(d, t, k) && LineEnd(d, k + |t|) == |d|
    ensures DropFrom(t, d, k) == d[k..]
  {
    MarkAt(d, t, k);
  }

  /** A character where no marker starts is kept. */
  lemma DropAtPlain(t: string, d: string, k: nat)
    requires k < |d| && !At(d, t, k)
    ensures DropFrom(t, d, k) == [d[k]] + DropFrom(t, d, k + 1)
  {
    MarkAt(d, t, k);
  }

  /** The clean-up from `y == j + x` is the clean-up of the suffix `d[j..]` from
      `x`: it does not look behind where it starts. */
  lemma {:induction false} DropShift(t: string, d: string, j: nat, x: nat, y: nat)
    requires y == j + x <= |d|
    ensures DropFrom(t, d, y) == DropFrom(t, d[j..], x)
    decreases |d| - y, 1
  {
    if y == |d| {
      assert |d[j..]| == x;
    } else if !Mark(d, t, y) {
      DropShiftPlain(t, d, j, x, y);
    } else if LineEnd(d, y + |t|) < |d| {
      DropShiftMarked(t, d, j, x, y, LineEnd(d, y + |t|));
    } else {
      DropShiftKept(t, d, j, x, y);
    }
  }

  lemma {:induction false} DropShiftMarked(t: string, d: string, j: nat, x: nat, y: nat, e: nat)
    requires y == j + x < |d| && Mark(d, t, y) && e == LineEnd(d, y + |t|) && e < |d|
    ensures DropFrom(t, d, y) == DropFrom(t, d[j..], x)
    decreases |d| - y, 0
  {
    MarkShift(d, t, j, x, y);
    LineEndShiftTo(d, j, x + |t|, y + |t|);
    var f := LineEnd(d[j..], x + |t|);
    DropShift(t, d, j, f + 1, e + 1);
  }

  lemma DropShiftKept(t: string, d: string, j: nat, x: nat, y: nat)
    requires y == j + x < |d| && Mark(d, t, y) && LineEnd(d, y + |t|) == |d|
    ensures DropFrom(t, d, y) == DropFrom(t, d[j..], x)
  {
    MarkShift(d, t, j, x, y);
    LineEndShiftTo(d, j, x + |t|, y + |t|);
    SliceOfSlice(d, j, x, y);
  }

  lemma {:induction false} DropShiftPlain(t: string, d: string, j: nat, x: nat, y: nat)
    requires y == j + x < |d| && !Mark(d, t, y)
    ensures DropFrom(t, d, y) == DropFrom(t, d[j..], x)
    decreases |d| - y, 0
  {
    DropShift(t, d, j, x + 1, y + 1);
    MarkShift(d, t, j, x, y);
    assert d[j..][x] == d[y];
  }

  /** A marker stands at `x` in `d[j..]` exactly when it stands at `j + x` in `d`. */
  lemma MarkShift(d: string, t: string, j: nat, x: nat, y: nat)
    requires y == j + x <= |d|
    ensures Mark(d, t, y) == Mark(d[j..], t, x)
  {
    if y + |t| <= |d| {
      MarkFromShift(d, t, j, x, y, 0);
    }
  }

  lemma {:induction false} MarkFromShift(d: string, t: string, j: nat, x: nat, y: nat, m: nat)
    requires y == j + x && y + |t| <= |d| && m <= |t|
    ensures MarkFrom(d, t, y, m) == MarkFrom(d[j..], t, x, m)
    decreases |t| - m
  {
    if m < |t| {
      assert d[j..][x + m] == d[y + m];
      MarkFromShift(d, t, j, x, y, m + 1);
    }
  }

  lemma LineEndShiftTo(d: string, k: nat, x: nat, y: nat)
    requires y == k + x <= |d|
    ensures LineEnd(d, y) == k + LineEnd(d[k..], x)
  {
    LineEndShift(d, k, x);
  }

  lemma SliceOfSlice(d: string, k: nat, x: nat, y: nat)
    requires y == k + x <= |d|
    ensures d[k..][x..] == d[y..]
  {
  }

  /** One line break, or nothing. */
  lemma NewlineStep(d: string, y: nat, c: Caps)
    requires y <= |d| && Bounded(c, |d|)
    ensures MatchSeq([Lit("\n")], d, y, c) == if y < |d| && d[y] == '\n' then Some(Hit(y + 1, c)) else None
  {
    var t: Pattern := [Lit("\n")];
    AtChar(d, '\n', y);
    assert t[0..] == t && t[1..] == [];
    LitStep(t, 0, d, y, c);
  }

  /** Where the "click here" pattern matches: at a click text that a line break
      follows, up to and including the first such line break. */
  lemma ClickMatchAt(d: string, x: nat)
    requires x <= |d|
    ensures MatchAt(ClickLine, d, x) ==
      if At(d, ClickText, x) && LineEnd(d, x + |ClickText|) < |d|
      then Some(Match(x, LineEnd(d, x + |ClickText|) + 1, map[]))
      else None
  {
    var p := ClickLine.branches[0];
    var c: Caps := map[];
    SingleBranch(ClickLine, d, x);
    assert p[0..] == p;
    LitStep(p, 0, d, x, c);
    if At(d, ClickText, x) {
      var j := x + |ClickText|;
      LineEndRun(d, j);
      LazyStep(p, 1, d, j, c);
      ClickLazy(d, j, c);
    }
  }

  lemma ClickMatchHit(d: string, x: nat, e: nat)
    requires x <= |d| && At(d, ClickText, x) && e == LineEnd(d, x + |ClickText|) && e < |d|
    ensures MatchAt(ClickLine, d, x) == Some(Match(x, e + 1, map[]))
  {
    ClickMatchAt(d, x);
  }

  lemma ClickMatchMiss(d: string, x: nat)
    requires x <= |d| && !At(d, ClickText, x)
    ensures MatchAt(ClickLine, d, x) == None
  {
    ClickMatchAt(d, x);
  }

  lemma ClickLazy(d: string, j: nat, c: Caps)
    requires j <= |d| && c == map[]
    ensures var n := Run(NotNewline, d, j);
      Lazy([Lit("\n")], d, j, 0, n, c) == if j + n < |d| then Some(Hit(j + n + 1, c)) else None
  {
    var t: Pattern := [Lit("\n")];
    var n := Run(NotNewline, d, j);
    RunBounds(NotNewline, d, j);
    forall y | j <= y < j + n ensures MatchSeq(t, d, y, c).None? {
      NewlineStep(d, y, c);
    }
    NewlineStep(d, j + n, c);
    if j + n < |d| {
      LazyFirst(t, d, j, 0, n, c, n);
    } else {
      LazyNone(t, d, j, 0, n, c);
    }
  }

  /** A position where nothing matches is kept by `re.sub`. */
  lemma SubSkip(re: Regex, s: string, repl: string, k: nat)
    requires k < |s| && NonEmpty(re) && MatchAt(re, s, k).None?
    ensures SubFrom(re, s, repl, k) == [s[k]] + SubFrom(re, s, repl, k + 1)
  {
    assert SearchFrom(re, s, k) == SearchFrom(re, s, k + 1);
    match SearchFrom(re, s, k + 1)
    case None =>
      assert s[k..] == [s[k]] + s[k + 1..];
    case Some(m) =>
      assert s[k..m.start] == [s[k]] + s[k + 1..m.start];
  }

  /** Nothing is left to replace at the end of the text. */
  lemma SubEnd(re: Regex, s: string, repl: string)
    requires NonEmpty(re)
    ensures SubFrom(re, s, repl, |s|) == []
  {
    assert SearchFrom(re, s, |s|).None?;
  }

  /** A match at `k` itself is replaced by `repl`, and `re.sub` goes on after it. */
  lemma SubHit(re: Regex, s: string, repl: string, k: nat, m: Match)
    requires k <= |s| && NonEmpty(re) && MatchAt(re, s, k) == Some(m)
    ensures m.end <= |s|
    ensures SubFrom(re, s, repl, k) == repl + SubFrom(re, s, repl, m.end)
  {
    assert SearchFrom(re, s, k) == Some(m);
    assert s[k..m.start] == [];
  }

  /** Deleting a match that starts at `k` and ends at `x`: the rest is cleaned from `x`. */
  lemma SubDrop(re: Regex, s: string, k: nat, x: nat)
    requires k <= |s| && NonEmpty(re) && MatchAt(re, s, k) == Some(Match(k, x, map[]))
    ensures x <= |s| && SubFrom(re, s, "", k) == SubFrom(re, s, "", x)
  {
    SubHit(re, s, "", k, Match(k, x, map[]));
  }

  /** `re.sub` of the "click here" pattern from `k` on is `DropFrom` from `k`. */
  lemma {:induction false} ClickSubFrom(d: string, k: nat)
    requires k <= |d|
    ensures NonEmpty(ClickLine)
    ensures SubFrom(ClickLine, d, "", k) == DropFrom(ClickText, d, k)
    decreases |d| - k
  {
    MinLenAtom(ClickLine.branches[0], 0);
    if k == |d| {
      SubEnd(ClickLine, d, "");
    } else if At(d, ClickText, k) && LineEnd(d, k + |ClickText|) < |d| {
      var e := LineEnd(d, k + |ClickText|);
      ClickSubFrom(d, e + 1);
      ClickStepHit(d, k, e);
    } else if At(d, ClickText, k) {
      ClickStepKept(d, k);
    } else {
      ClickSubFrom(d, k + 1);
      ClickStepPlain(d, k);
    }
  }

  /** The step of `ClickSubFrom` at a click line. */
  lemma ClickStepHit(d: string, k: nat, e: nat)
    requires k < |d| && At(d, ClickText, k) && e == LineEnd(d, k + |ClickText|) && e < |d|
    requires NonEmpty(ClickLine)
    requires SubFrom(ClickLine, d, "", e + 1) == DropFrom(ClickText, d, e + 1)
    ensures SubFrom(ClickLine, d, "", k) == DropFrom(ClickText, d, k)
  {
    ClickMatchHit(d, k, e);
    SubDrop(ClickLine, d, k, e + 1);
    DropAtMarked(ClickText, d, k, e);
  }

  /** The step of `ClickSubFrom` at a click text that no line break follows. */
  lemma ClickStepKept(d: string, k: nat)
    requires k < |d| && At(d, ClickText, k) && LineEnd(d, k + |ClickText|) == |d|
    requires NonEmpty(ClickLine)
    ensures SubFrom(ClickLine, d, "", k) == DropFrom(ClickText, d, k)
  {
    DropAtKept(ClickText, d, k);
    ClickSearchMiss(d, k);
  }

  /** The step of `ClickSubFrom` at a character where no click text starts. */
  lemma ClickStepPlain(d: string, k: nat)
    requires k < |d| && !At(d, ClickText, k)
    requires NonEmpty(ClickLine)
    requires SubFrom(ClickLine, d, "", k + 1) == DropFrom(ClickText, d, k + 1)
    ensures SubFrom(ClickLine, d, "", k) == DropFrom(ClickText, d, k)
  {
    DropAtPlain(ClickText, d, k);
    ClickMatchMiss(d, k);
    SubSkip(ClickLine, d, "", k);
  }

  /** After a click text that no line break follows, the pattern matches nowhere. */
  lemma ClickSearchMiss(d: string, k: nat)
    requires k <= |d| && At(d, ClickText, k) && LineEnd(d, k + |ClickText|) == |d|
    ensures SearchFrom(ClickLine, d, k).None?
  {
    forall x | k <= x <= |d| ensures MatchAt(ClickLine, d, x).None? {
      ClickMatchAt(d, x);
      if At(d, ClickText, x) {
        LineEndLater(d, k + |ClickText|, x + |ClickText|);
      }
    }
  }

  /** `re.sub(r"You can click here to go to.*?\n", "", d)` is `DropMarked`. */
  lemma ClickSub(d: string)
    ensures NonEmpty(ClickLine)
    ensures Sub(ClickLine, d, "") == DropMarked(ClickText, d)
  {
    ClickSubFrom(d, 0);
  }

  /** Text before the first marker is kept as it is. */
  lemma {:induction false} DropPlain(t: string, d: string, k: nat, i: nat)
    requires k <= i <= |d| && forall x :: k <= x < i ==> !At(d, t, x)
    ensures DropFrom(t, d, k) == d[k..i] + DropFrom(t, d, i)
    decreases i - k
  {
    if k < i {
      DropPlain(t, d, k + 1, i);
      DropPlainStep(t, d, k, i);
    }
  }

  lemma DropPlainStep(t: string, d: string, k: nat, i: nat)
    requires k < i <= |d| && !At(d, t, k)
    requires DropFrom(t, d, k + 1) == d[k + 1..i] + DropFrom(t, d, i)
    ensures DropFrom(t, d, k) == d[k..i] + DropFrom(t, d, i)
  {
    DropAtPlain(t, d, k);
    ConsSlice(d, k, i, DropFrom(t, d, i));
  }

  lemma ConsSlice(d: string, k: nat, i: nat, x: string)
    requires k < i <= |d|
    ensures [d[k]] + (d[k + 1..i] + x) == d[k..i] + x
  {
    assert d[k..i] == [d[k]] + d[k + 1..i];
  }

  /** A click text followed by a line break goes, up to and including that line
      break; what follows is cleaned the same way on its own. */
  lemma ClickRemoved(d: string, i: nat, e: nat)
    requires At(d, ClickText, i) && forall x :: 0 <= x < i ==> !At(d, ClickText, x)
    requires i + |ClickText| <= e < |d| && d[e] == '\n'
    requires forall x :: i + |ClickText| <= x < e ==> d[x] != '\n'
    ensures NonEmpty(ClickLine)
    ensures Sub(ClickLine, d, "") == d[..i] + Sub(ClickLine, d[e + 1..], "")
  {
    ClickSub(d);
    ClickSub(d[e + 1..]);
    DropFirstLine(ClickText, d, i, e);
  }

  /** Removing the first marked line: the text before it stays, the text after it is cleaned. */
  lemma DropFirstLine(t: string, d: string, i: nat, e: nat)
    requires At(d, t, i) && forall x :: 0 <= x < i ==> !At(d, t, x)
    requires i + |t| <= e < |d| && d[e] == '\n'
    requires forall x :: i + |t| <= x < e ==> d[x] != '\n'
    ensures DropMarked(t, d) == d[..i] + DropMarked(t, d[e + 1..])
  {
    DropPlain(t, d, 0, i);
    LineEndCovers(d, i + |t|, e);
    DropAtMarked(t, d, i, e);
    DropShift(t, d, e + 1, 0, e + 1);
    assert d[0..i] == d[..i];
  }

  /** A click text that no line break follows stays, and so does the whole text:
      `strip()` has already removed the line break after a last click line. */
  lemma ClickKept(d: string, i: nat)
    requires At(d, ClickText, i) && forall x :: 0 <= x < i ==> !At(d, ClickText, x)
    requires forall x :: i + |ClickText| <= x < |d| ==> d[x] != '\n'
    ensures NonEmpty(ClickLine)
    ensures Sub(ClickLine, d, "") == d
  {
    ClickSub(d);
    DropPlain(ClickText, d, 0, i);
    LineEndCovers(d, i + |ClickText|, |d|);
    DropAtKept(ClickText, d, i);
    assert d[0..i] + d[i..] == d;
  }

  lemma {:induction false} LineEndShift(d: string, k: nat, x: nat)
    requires k + x <= |d|
    ensures LineEnd(d, k + x) == k + LineEnd(d[k..], x)
    decreases |d| - k - x
  {
    if k + x < |d| {
      assert d[k..][x] == d[k + x];
      if d[k + x] != '\n' {
        LineEndShift(d, k, x + 1);
      }
    }
  }

  /** The line from `j` ends at `q` when no line break comes before `q` and
      `q` is a line break or the end of the text. */
  lemma {:induction false} LineEndCovers(d: string, j: nat, q: nat)
    requires j <= q <= |d| && forall x :: j <= x < q ==> d[x] != '\n'
    requires q < |d| ==> d[q] == '\n'
    ensures LineEnd(d, j) == q
    decreases q - j
  {
    if j < q {
      LineEndCovers(d, j + 1, q);
    }
  }

  /** A line that runs to the end of the text does so from each later position too. */
  lemma {:induction false} LineEndLater(d: string, j: nat, y: nat)
    requires j <= y <= |d| && LineEnd(d, j) == |d|
    ensures LineEnd(d, y) == |d|
    decreases y - j
  {
    if j < y {
      assert j < |d| && d[j] != '\n';
      LineEndLater(d, j + 1, y);
    }
  }

  /** So when the text between the anchors has no "click here" text, the details
      are that text, stripped. */
  lemma TradeDetailsPlain(t: string)
    requires var b := TextBetween(NormalizedText(t), Executed, Adjust); b.Some? && !Contains(b.value, ClickText)
    ensures TradeDetails(Some(t)) == Some(Strip(TextBetween(NormalizedText(t), Executed, Adjust).value))
  {
    var g := TextBetween(NormalizedText(t), Executed, Adjust).value;
    AnchoredDetailsBetween(NormalizedText(t));
    StripWithout(g, ClickText);
    ClickAbsent(Strip(g));
    StripIdempotent(g);
  }
}
