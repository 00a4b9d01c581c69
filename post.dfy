/**
 * What `post_to_discord` of dingers/main.py sends: the highlight's title without
 * a trailing `(HH:MM:SS)` clock, in bold under a comet, then the description and
 * a link to the video.
 */
module DingerPost {
  import opened Text
  import opened Regex
  import opened RegexFacts

  /** `re.sub(r"\s*\(\d{2}:\d{2}:\d{2}\)\s*$", "", title).strip()`. */
  function CleanTitle(title: string): (clean: string)
    ensures Stripped(clean)
  {
    TitleStampNonEmpty();
    Strip(Sub(TitleStamp, title, ""))
  }

  /** A title ending in a clock (and white space) loses the clock and is stripped. */
  lemma CleanClock(title: string, q: nat)
    requires Clock(title, q)
    requires forall k :: q + 10 <= k < |title| ==> IsSpace(title[k])
    ensures CleanTitle(title) == Strip(title[..q])
  {
    StampRemoved(title, q);
    var u := title[..q];
    assert title[..q - TrailingSpace(u)] == u[..|u| - TrailingSpace(u)];
    StripTrailingCut(u);
  }

  /** A title that does not end in a clock is only stripped, even with a clock
      elsewhere in it. */
  lemma CleanNoClock(title: string)
    requires forall y :: 0 <= y <= |title| ==> !ClockAtEnd(title, y)
    ensures CleanTitle(title) == Strip(title)
  {
    StampAbsent(title);
  }

  /** A stripped title, then a space and a clock: the clean title is the title alone. */
  lemma CleanSpacedClock(w: string, clock: string)
    requires w != [] && Stripped(w)
    requires |clock| == 10 && Clock(clock, 0)
    ensures CleanTitle(w + " " + clock) == w
  {
    var t := w + " " + clock;
    var q := |w| + 1;
    assert forall k :: 0 <= k < 10 ==> t[q + k] == clock[k];
    assert Clock(t, q);
    CleanClock(t, q);
    assert t[..q] == w + " ";
    StripOneTrailing(w);
  }

  /** The example of the source's comment: `"Smith homers (02:34:56)"`. */
  lemma CleanSmith(w: string, clock: string)
    requires w == "Smith homers" && clock == "(02:34:56)"
    ensures CleanTitle(w + " " + clock) == "Smith homers"
  {
    CleanSpacedClock(w, clock);
  }

  /** A parenthesised team before the clock stays: `"Judge (NYY) homers (02:34:56)"`. */
  lemma CleanTeamInTitle(w: string, clock: string)
    requires w == "Judge (NYY) homers" && clock == "(02:34:56)"
    ensures CleanTitle(w + " " + clock) == "Judge (NYY) homers"
  {
    CleanSpacedClock(w, clock);
  }

  lemma StripOneTrailing(w: string)
    requires w != [] && Stripped(w)
    ensures Strip(w + " ") == w
  {
    var u := w + " ";
    StripUnique(u, 0, |w|);
    assert u[0..|w|] == w;
  }

  const Comet := "\U{2604}\U{FE0F}"

  /** The message content. */
  function Content(clean: string, description: string, videoUrl: string): string {
    Comet + " **" + clean + "**\n" + description + "\n[Video](" + videoUrl + ")"
  }

  /** With no line break in its parts, the content is three lines: the bold
      title, the description and the link. */
  lemma ContentLines(clean: string, description: string, videoUrl: string)
    requires NoBreak(clean) && NoBreak(description) && NoBreak(videoUrl)
    ensures Split(Content(clean, description, videoUrl), "\n") ==
      [Comet + " **" + clean + "**", description, "[Video](" + videoUrl + ")"]
  {
    var first := Comet + " **" + clean + "**";
    var link := "[Video](" + videoUrl + ")";
    NoBreakConcat(Comet + " **", clean);
    NoBreakConcat(Comet + " **" + clean, "**");
    NoBreakConcat("[Video](", videoUrl);
    NoBreakConcat("[Video](" + videoUrl, ")");
    ContentJoin(clean, description, videoUrl);
    SplitThreeLines(first, description, link);
  }

  lemma ContentJoin(clean: string, description: string, videoUrl: string)
    ensures Content(clean, description, videoUrl) ==
      (Comet + " **" + clean + "**") + "\n" + (description + "\n" + ("[Video](" + videoUrl + ")"))
  {
  }

  /** Three lines without a break, joined by line breaks, split back into the three. */
  lemma SplitThreeLines(a: string, b: string, c: string)
    requires NoBreak(a) && NoBreak(b) && NoBreak(c)
    ensures Split(a + "\n" + (b + "\n" + c), "\n") == [a, b, c]
  {
    SplitFirstLine(a, b + "\n" + c);
    SplitFirstLine(b, c);
    NoBreakContains(c);
    SplitWithout(c, "\n");
  }
}
