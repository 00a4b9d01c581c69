/**
 * `_parse_trade_block` of transactions/email.py: the fields of a "trade block
 * changed" e-mail, read from the text of its HTML body.
 */
module TradeBlock {
  import opened Wrappers
  import opened Text
  import opened Regex
  import opened RegexFacts
  import opened Notice

  const TeamSuffix := " has made changes to the Trade Block"

  /** `- (.+?) has made changes to the Trade Block`. */
  const TeamPattern := Labelled("- ", NotNewline, 1, TeamSuffix)

  const NoneSpecified := "(None specified)"

  /** `extract_section`: `heading:(.*?)following:` under `re.DOTALL`, the group
      stripped, or the empty string without a match. */
  function Section(text: string, heading: string, following: string): (r: string)
    ensures Stripped(r)
  {
    match Search(Labelled(heading + ":", AnyChar, 0, following + ":"), text)
    case None => []
    case Some(m) => Strip(Group(text, m, 1))
  }

  lemma SectionGroup(text: string, a: string, b: string)
    ensures (match Search(Labelled(a, AnyChar, 0, b), text)
             case None => None
             case Some(m) => Some(Group(text, m, 1))) == TextBetween(text, a, b)
  {
    SectionSearch(a, b, text);
    var r := Search(Labelled(a, AnyChar, 0, b), text);
    match Find(text, a)
    case None =>
      assert r == None && TextBetween(text, a, b) == None;
    case Some(i) =>
      SectionFound(text, a, b, i, r);
  }

  lemma SectionFound(text: string, a: string, b: string, i: nat, r: Option<Match>)
    requires Find(text, a) == Some(i) && i + |a| <= |text| && r == SectionMatch(a, b, text, i)
    ensures (match r
             case None => None
             case Some(m) => Some(Group(text, m, 1))) == TextBetween(text, a, b)
  {
    match FindFrom(text, b, i + |a|)
    case None =>
      assert r == None && TextBetween(text, a, b) == None;
    case Some(j) =>
      assert r == Some(Match(i, j + |b|, Group1(i + |a|, j)));
      Group1Slice(text, i, j + |b|, i + |a|, j);
      assert TextBetween(text, a, b) == Some(text[i + |a|..j]);
  }

  /** A section is the stripped text between the first `heading:` and the first
      `following:` after it, and empty when either is missing. */
  lemma SectionBetween(text: string, heading: string, following: string)
    ensures Section(text, heading, following) ==
      match TextBetween(text, heading + ":", following + ":")
      case None => []
      case Some(t) => Strip(t)
  {
    SectionGroup(text, heading + ":", following + ":");
  }

  /** The comment: the stripped text after the first `Comment:`, up to the first
      `Note that` after it or to the end. */
  function Comment(text: string): (r: string)
    ensures Stripped(r)
    ensures r == match Find(text, "Comment:")
      case None => []
      case Some(i) => Strip(text[i + 8..StopAt(text, "Note that", i + 8)])
  {
    UntilOrEndSearch("Comment:", "Note that", text);
    CommentGroup(text, Search(UntilOrEnd("Comment:", "Note that"), text));
    match Search(UntilOrEnd("Comment:", "Note that"), text)
    case None => []
    case Some(m) => Strip(Group(text, m, 1))
  }

  lemma CommentGroup(text: string, r: Option<Match>)
    requires r == match Find(text, "Comment:")
      case None => None
      case Some(i) => Some(UntilMatch("Comment:", "Note that", text, i))
    ensures (match r
             case None => []
             case Some(m) => Strip(Group(text, m, 1))) ==
      match Find(text, "Comment:")
      case None => []
      case Some(i) => Strip(text[i + 8..StopAt(text, "Note that", i + 8)])
  {
    match Find(text, "Comment:")
    case None =>
    case Some(i) =>
      var e := StopAt(text, "Note that", i + 8);
      assert r.value == UntilMatch("Comment:", "Note that", text, i);
      Group1Slice(text, i, r.value.end, i + 8, e);
  }

  /** The team: the stripped group, cut after the last `" - "` when it has one
      (`team.rsplit(" - ", 1)[-1].strip()`). */
  function Team(group: string): (team: string)
    ensures Stripped(team)
    ensures !Contains(team, " - ")
    ensures !Contains(Strip(group), " - ") ==> team == Strip(group)
    ensures Contains(Strip(group), " - ") ==>
      exists j: nat :: j + 3 <= |Strip(group)| && At(Strip(group), " - ", j) &&
        (forall k :: j < k <= |Strip(group)| ==> !At(Strip(group), " - ", k)) &&
        team == Strip(Strip(group)[j + 3..])
  {
    var t := Strip(group);
    match FindLast(t, " - ")
    case None => t
    case Some(j) =>
      assert At(t, " - ", j);
      SliceWithout(t, " - ", j + 3, |t|);
      assert t[j + 3..|t|] == t[j + 3..];
      StripWithout(t[j + 3..], " - ");
      Strip(t[j + 3..])
  }

  /** A league name, `" - "` and a team name without dashes: the team name is
      what remains (`"The Don Orsillo Open - Grand Salamis"` gives `"Grand Salamis"`). */
  lemma TeamAfterLeague(league: string, name: string)
    requires league != [] && !IsSpace(league[0])
    requires name != [] && !IsSpace(name[0]) && !IsSpace(name[|name| - 1])
    requires forall x :: 0 <= x < |name| ==> name[x] != '-'
    ensures Team(league + " - " + name) == name
  {
    var t := league + " - " + name;
    var n := |league|;
    assert t[0] == league[0] && t[|t| - 1] == name[|name| - 1];
    StripStripped(t);
    LastDash(league, name, t);
    assert FindLast(t, " - ") == Some(n);
    assert t[n + 3..] == name;
    StripStripped(name);
  }

  /** The `" - "` after the league is the last one when the name has no dash. */
  lemma LastDash(league: string, name: string, t: string)
    requires t == league + " - " + name
    requires forall x :: 0 <= x < |name| ==> name[x] != '-'
    ensures At(t, " - ", |league|)
    ensures forall k :: |league| < k <= |t| ==> !At(t, " - ", k)
  {
    var n := |league|;
    assert t[n..n + 3] == " - ";
    forall k | n < k <= |t| ensures !At(t, " - ", k) {
      if k + 3 <= |t| {
        var w := t[k..k + 3];
        assert w[0] == t[k] && w[1] == t[k + 1];
        if k == n + 1 {
          assert t[k] == '-';
          assert w[0] != " - "[0];
        } else {
          assert t[k + 1] == name[k + 1 - n - 3];
          assert w[1] != " - "[1];
        }
        assert w != " - ";
      }
    }
  }

  lemma SingleSpacedSlice(t: string, i: nat, j: nat)
    requires i <= j <= |t| && SingleSpacedLine(t)
    ensures SingleSpacedLine(t[i..j])
  {
    assert forall x :: 0 <= x < j - i ==> t[i..j][x] == t[i + x];
  }

  /** The players: the Players Offered section cut at runs of line breaks and at
      runs of two or more white-space characters, each piece stripped and the
      empty ones dropped. */
  function Players(raw: string): (r: seq<string>)
    ensures r == KeepStripped(ReSplit(PlayerBreak, raw))
    ensures r == KeepStripped(BreakPieces(raw, 0, 0))
    ensures forall k :: 0 <= k < |r| ==> r[k] != [] && Stripped(r[k]) && SingleSpacedLine(r[k])
  {
    PlayerPieces(raw);
    PlayerSplit(raw);
    var pieces := ReSplit(PlayerBreak, raw);
    var r := KeepStripped(pieces);
    assert forall k :: 0 <= k < |r| ==> SingleSpacedLine(r[k]) by {
      forall k | 0 <= k < |r| ensures SingleSpacedLine(r[k]) {
        var n :| 0 <= n < |pieces| && r[k] == Strip(pieces[n]);
        var u := pieces[n];
        var i, j := StripBounds(u);
        SingleSpacedSlice(u, i, j);
      }
    }
    r
  }

  /** `section or "(None specified)"`. */
  function OrNoneSpecified(s: string): (r: string)
    ensures r != []
    ensures Stripped(s) ==> Stripped(r)
    ensures s != [] ==> r == s
  {
    if s == [] then NoneSpecified else s
  }

  /** What a parsed trade block promises: a team without `" - "`, four fields that
      are never empty, a stripped comment and clean player names. */
  predicate WellFormed(d: Data) {
    d.BlockData? &&
    Stripped(d.team) && !Contains(d.team, " - ") &&
    d.positionsOffered != [] && d.statsOffered != [] &&
    d.positionsNeeded != [] && d.statsNeeded != [] &&
    Stripped(d.positionsOffered) && Stripped(d.statsOffered) &&
    Stripped(d.positionsNeeded) && Stripped(d.statsNeeded) && Stripped(d.comment) &&
    forall k :: 0 <= k < |d.playersOffered| ==>
      d.playersOffered[k] != [] && Stripped(d.playersOffered[k]) && SingleSpacedLine(d.playersOffered[k])
  }

  /** The whole parser: nothing without the team line, otherwise every field. */
  function ParseTradeBlock(text: string): (r: Option<Data>)
    ensures r.None? <==> forall i, j :: 0 <= i <= |text| ==> !Between(text, "- ", NotNewline, 1, TeamSuffix, i, j)
    ensures r.Some? ==> WellFormed(r.value)
  {
    LabelledSearch("- ", NotNewline, 1, TeamSuffix, text);
    match Search(TeamPattern, text)
    case None => None
    case Some(m) =>
      Some(BlockData(
        Team(Group(text, m, 1)),
        Players(Section(text, "Players Offered", "Positions Offered")),
        OrNoneSpecified(Section(text, "Positions Offered", "Stats Offered")),
        OrNoneSpecified(Section(text, "Stats Offered", "Positions Needed")),
        OrNoneSpecified(Section(text, "Positions Needed", "Stats Needed")),
        OrNoneSpecified(Section(text, "Stats Needed", "Comment")),
        Comment(text)))
  }
}
