/**
 * `extract_hr_highlights` of dingers/main.py: the highlight feed of a game is
 * cut into blocks at blank lines, each block's first three lines are its title,
 * description and video URL, and the blocks whose title or description speak
 * of a home run are kept, in feed order.
 */
module Highlights {
  import opened Wrappers
  import opened Text

  datatype Highlight = Highlight(title: string, description: string, videoUrl: string, gameId: int)

  /** The home-run test on the lower-cased title and description. */
  predicate HomeRun(title: string, description: string) {
    var t := Lower(title);
    var d := Lower(description);
    Contains(t, "homer") || Contains(t, "home run") || Contains(d, "homer") || Contains(d, "home run")
  }

  /** What one block of the feed yields: nothing for an empty block, one with
      fewer than three lines, or one that is not about a home run. */
  function FromBlock(block: string, gameId: int): Option<Highlight> {
    if block == "" then None
    else
      var parts := Split(block, "\n");
      if |parts| < 3 then None
      else if HomeRun(parts[0], parts[1]) then Some(Highlight(parts[0], parts[1], parts[2], gameId))
      else None
  }

  /** What each block yields, in order. */
  function Yields(blocks: seq<string>, gameId: int): (ys: seq<Option<Highlight>>)
    ensures |ys| == |blocks|
    ensures forall i :: 0 <= i < |blocks| ==> ys[i] == FromBlock(blocks[i], gameId)
  {
    if blocks == [] then [] else Yields(blocks[..|blocks| - 1], gameId) + [FromBlock(blocks[|blocks| - 1], gameId)]
  }

  /** The values present, in order. */
  function Present<T>(ys: seq<Option<T>>): seq<T> {
    if ys == [] then []
    else
      var rest := Present(ys[..|ys| - 1]);
      match ys[|ys| - 1]
      case None => rest
      case Some(h) => rest + [h]
  }

  /** The highlights of the blocks, in order. */
  function Kept(blocks: seq<string>, gameId: int): seq<Highlight> {
    Present(Yields(blocks, gameId))
  }

  /** The result for a game: nothing when fetching the feed raised, otherwise the
      highlights of its blocks. */
  function HrHighlights(feed: Option<string>, gameId: int): seq<Highlight> {
    match feed
    case None => []
    case Some(text) => Kept(Split(text, "\n\n"), gameId)
  }

  lemma KeptSnoc(blocks: seq<string>, i: nat, gameId: int)
    requires i < |blocks|
    ensures Kept(blocks[..i + 1], gameId) ==
      Kept(blocks[..i], gameId) + (match FromBlock(blocks[i], gameId) case None => [] case Some(h) => [h])
  {
    assert blocks[..i + 1][..i] == blocks[..i];
    var ys := Yields(blocks[..i + 1], gameId);
    assert ys[..i] == Yields(blocks[..i], gameId);
    assert ys[i] == FromBlock(blocks[i], gameId);
  }

  /** The source's loop, which appends each home-run highlight as it meets it. */
  method ExtractHrHighlights(feed: Option<string>, gameId: int) returns (highlights: seq<Highlight>)
    ensures highlights == HrHighlights(feed, gameId)
  {
    highlights := [];
    if feed.None? {
      return;
    }
    var list := Split(feed.value, "\n\n");
    for i := 0 to |list|
      invariant highlights == Kept(list[..i], gameId)
    {
      KeptSnoc(list, i, gameId);
      var block := list[i];
      if block == "" {
        continue;
      }
      var parts := Split(block, "\n");
      if |parts| < 3 {
        continue;
      }
      var title, description, videoUrl := parts[0], parts[1], parts[2];
      if HomeRun(title, description) {
        highlights := highlights + [Highlight(title, description, videoUrl, gameId)];
      }
    }
    assert list[..|list|] == list;
  }

  /** A line, its line break, and what follows. */
  function Line(t: string, rest: string): string {
    t + "\n" + rest
  }

  lemma LineAppend(t: string, x: string, rest: string)
    ensures Line(t, x) + rest == Line(t, x + rest)
  {
  }

  /** The three lines a block starts with, and the line break after them if the
      block goes on. */
  predicate StartsWith(block: string, h: Highlight) {
    var head := Line(h.title, Line(h.description, h.videoUrl));
    |head| <= |block| && block[..|head|] == head && (|block| == |head| || block[|head|] == '\n')
  }

  /** A kept block: a home-run title or description, three lines that make up the
      start of the block, and the game's id. */
  predicate FromFeed(block: string, h: Highlight, gameId: int) {
    HomeRun(h.title, h.description) && h.gameId == gameId &&
    NoBreak(h.title) && NoBreak(h.description) && NoBreak(h.videoUrl) && StartsWith(block, h)
  }

  /** A block whose lines start with `parts[0]`, `parts[1]`, `parts[2]` starts
      with those three lines. */
  lemma FirstThreeLines(block: string)
    requires |Split(block, "\n")| >= 3
    ensures var parts := Split(block, "\n");
      NoBreak(parts[0]) && NoBreak(parts[1]) && NoBreak(parts[2]) &&
      StartsWith(block, Highlight(parts[0], parts[1], parts[2], 0))
  {
    var parts := Split(block, "\n");
    NoBreakContains(parts[0]);
    NoBreakContains(parts[1]);
    NoBreakContains(parts[2]);
    JoinSplit(block, "\n");
    JoinThree(parts);
  }

  /** Joining lines gives the first three lines, then the rest after a line break. */
  lemma JoinThree(parts: seq<string>)
    requires |parts| >= 3
    ensures StartsWith(Join(parts, "\n"), Highlight(parts[0], parts[1], parts[2], 0))
  {
    var head := Line(parts[0], Line(parts[1], parts[2]));
    var x: string := if |parts| == 3 then [] else "\n" + Join(parts[3..], "\n");
    var j2 := Join(parts[2..], "\n");
    assert j2 == parts[2] + x by {
      if |parts| > 3 {
        assert parts[2..][0] == parts[2];
        assert parts[2..][1..] == parts[3..];
      }
    }
    var j1 := Join(parts[1..], "\n");
    assert j1 == Line(parts[1], j2) by {
      assert parts[1..][0] == parts[1];
      assert parts[1..][1..] == parts[2..];
    }
    var j := Join(parts, "\n");
    assert j == Line(parts[0], j1);
    LineAppend(parts[1], parts[2], x);
    assert j1 == Line(parts[1], parts[2]) + x;
    LineAppend(parts[0], Line(parts[1], parts[2]), x);
    assert j == head + x;
  }

  /** Every highlight a block yields is about a home run and is the block's first
      three lines. */
  lemma FromBlockSound(block: string, gameId: int)
    requires FromBlock(block, gameId).Some?
    ensures FromFeed(block, FromBlock(block, gameId).value, gameId)
  {
    FirstThreeLines(block);
  }

  /** The lines of the last of three lines, and of what follows it. */
  lemma LastLine(c: string, rest: string) returns (tail: seq<string>)
    requires NoBreak(c) && (rest == [] || rest[0] == '\n')
    ensures Split(c + rest, "\n") == [c] + tail
  {
    if rest == [] {
      NoBreakContains(c);
      SplitWithout(c, "\n");
      assert c + rest == c;
      tail := [];
    } else {
      assert rest == "\n" + rest[1..];
      assert c + rest == c + "\n" + rest[1..];
      SplitFirstLine(c, rest[1..]);
      tail := Split(rest[1..], "\n");
    }
  }

  /** The lines of three lines and what follows them. */
  lemma ThreeLines(a: string, b: string, c: string, rest: string) returns (tail: seq<string>)
    requires NoBreak(a) && NoBreak(b) && NoBreak(c) && (rest == [] || rest[0] == '\n')
    ensures Split(Line(a, Line(b, c + rest)), "\n") == [a, b, c] + tail
  {
    var x2 := c + rest;
    var x1 := Line(b, x2);
    SplitFirstLine(a, x1);
    SplitFirstLine(b, x2);
    tail := LastLine(c, rest);
    var l2 := Split(x2, "\n");
    var l1 := Split(x1, "\n");
    assert l1 == [b] + l2;
    assert Split(Line(a, x1), "\n") == [a] + l1;
    assert [a] + ([b] + ([c] + tail)) == [a, b, c] + tail;
  }

  /** The lines of a block that starts with a title, a description and a URL. */
  lemma LinesOfBlock(block: string, h: Highlight) returns (tail: seq<string>)
    requires NoBreak(h.title) && NoBreak(h.description) && NoBreak(h.videoUrl) && StartsWith(block, h)
    ensures Split(block, "\n") == [h.title, h.description, h.videoUrl] + tail
  {
    var head := Line(h.title, Line(h.description, h.videoUrl));
    var rest := block[|head|..];
    assert block == head + rest;
    LineAppend(h.description, h.videoUrl, rest);
    LineAppend(h.title, Line(h.description, h.videoUrl), rest);
    tail := ThreeLines(h.title, h.description, h.videoUrl, rest);
  }

  /** Conversely, a block made of a home-run title, a description and a URL (and
      possibly more lines) yields exactly that highlight. */
  lemma FromBlockComplete(block: string, h: Highlight, gameId: int)
    requires FromFeed(block, h, gameId)
    ensures FromBlock(block, gameId) == Some(h)
  {
    var tail := LinesOfBlock(block, h);
    assert block != [] by {
      assert |block| >= |Line(h.title, Line(h.description, h.videoUrl))| > 0;
    }
  }

  /** The values present are exactly the `Some`s, in order: position `j` is the
      value at `idx[j]`, the indexes increase, and every `Some` has its index
      among them. */
  lemma {:induction false} PresentInOrder<T>(ys: seq<Option<T>>) returns (idx: seq<nat>)
    ensures |idx| == |Present(ys)|
    ensures forall j :: 0 <= j < |idx| ==> idx[j] < |ys| && ys[idx[j]] == Some(Present(ys)[j])
    ensures forall j, l :: 0 <= j < l < |idx| ==> idx[j] < idx[l]
    ensures forall i :: 0 <= i < |ys| && ys[i].Some? ==> i in idx
  {
    if ys == [] {
      idx := [];
    } else {
      var n := |ys| - 1;
      var rest := PresentInOrder(ys[..n]);
      var pf := Present(ys[..n]);
      var ps := Present(ys);
      assert forall i :: 0 <= i < n ==> ys[..n][i] == ys[i];
      match ys[n]
      case None =>
        assert ps == pf;
        idx := rest;
      case Some(h) =>
        assert ps == pf + [h];
        idx := rest + [n];
        forall j | 0 <= j < |idx|
          ensures idx[j] < |ys| && ys[idx[j]] == Some(ps[j])
        {
          if j < |rest| {
            assert idx[j] == rest[j] && ps[j] == pf[j];
          }
        }
    }
  }

  /** The highlights are exactly the blocks that yield one, in feed order. */
  lemma KeptInOrder(blocks: seq<string>, gameId: int) returns (idx: seq<nat>)
    ensures |idx| == |Kept(blocks, gameId)|
    ensures forall j :: 0 <= j < |idx| ==>
      idx[j] < |blocks| && FromBlock(blocks[idx[j]], gameId) == Some(Kept(blocks, gameId)[j])
    ensures forall j, l :: 0 <= j < l < |idx| ==> idx[j] < idx[l]
    ensures forall i :: 0 <= i < |blocks| && FromBlock(blocks[i], gameId).Some? ==> i in idx
  {
    idx := PresentInOrder(Yields(blocks, gameId));
  }

  /** Every highlight kept is about a home run, belongs to the game and is the
      start of a block of the feed. */
  lemma KeptSound(blocks: seq<string>, gameId: int, j: nat) returns (i: nat)
    requires j < |Kept(blocks, gameId)|
    ensures i < |blocks| && FromFeed(blocks[i], Kept(blocks, gameId)[j], gameId)
  {
    var idx := KeptInOrder(blocks, gameId);
    i := idx[j];
    FromBlockSound(blocks[i], gameId);
  }

  /** Every block that starts with three lines about a home run is kept. */
  lemma KeptComplete(blocks: seq<string>, gameId: int, i: nat, h: Highlight)
    requires i < |blocks| && FromFeed(blocks[i], h, gameId)
    ensures h in Kept(blocks, gameId)
  {
    var idx := KeptInOrder(blocks, gameId);
    FromBlockComplete(blocks[i], h, gameId);
    var j :| 0 <= j < |idx| && idx[j] == i;
    assert Kept(blocks, gameId)[j] == h;
  }
}
