/**
 * The two formatters of transactions/email.py: `_format_trade_block_message`,
 * which lays out the fields of a trade block, and `_format_discord_message`,
 * which puts the kind's emoji and title over the details of any notice.
 */
module Format {
  import opened Wrappers
  import opened Text
  import opened Classify
  import opened Notice
  import opened TradeBlock

  const League := "The Don Orsillo Open"

  /** The emoji of each kind; a kind without one gets the clipboard. */
  function Emoji(k: Kind): string {
    match k
    case Claim => "\U{2705}"
    case Drop => "\U{1F6AB}"
    case Trade => "\U{1F504}"
    case Block => "\U{1F7E6}"
    case Draft => "\U{1F37A}"
    case Unknown => "\U{1F4CB}"
  }

  function Title(k: Kind): string {
    match k
    case Claim => "A player has been claimed in " + League + "!"
    case Drop => "A player has been dropped in " + League + "!"
    case Trade => "A trade has been executed in " + League + "!"
    case Block => "A trade block has been updated in " + League + "!"
    case Draft => "Draft pick made in " + League + "!"
    case Unknown => "A transaction occurred!"
  }

  /** The player lines of the trade block: the players, or `(none)` for none. */
  function PlayerLines(ps: seq<string>): (r: seq<string>)
    ensures r != []
  {
    if ps == [] then ["(none)"] else ps
  }

  /** The lines of a trade-block message, in order. The comment line is there
      only for a non-empty comment. */
  function TradeBlockLines(d: Data): (r: seq<string>)
    requires d.BlockData?
  {
    ["**" + d.team + "** updated their trade block"] + [""] +
    ["**Players Offered:**"] + PlayerLines(d.playersOffered) + [""] +
    ["**Positions Offered:** " + d.positionsOffered] +
    ["**Stats Offered:** " + d.statsOffered] +
    ["**Positions Needed:** " + d.positionsNeeded] +
    ["**Stats Needed:** " + d.statsNeeded] +
    (if d.comment != [] then ["**Comment:** " + d.comment] else [])
  }

  /** Lines, each followed by a line break. */
  function Unlines(ls: seq<string>): string {
    if ls == [] then "" else Unlines(ls[..|ls| - 1]) + ls[|ls| - 1] + "\n"
  }

  /** The trade-block message: its lines, stripped. */
  function TradeBlockMessage(d: Data): string
    requires d.BlockData?
  {
    Strip(Unlines(TradeBlockLines(d)))
  }

  lemma UnlinesSnoc(ls: seq<string>, x: string)
    ensures Unlines(ls + [x]) == Unlines(ls) + x + "\n"
  {
    assert (ls + [x])[..|ls|] == ls;
  }

  /** Lines after lines: the new ones joined, then one line break. */
  lemma {:induction false} UnlinesAppend(ls: seq<string>, b: seq<string>)
    requires b != []
    ensures Unlines(ls + b) == Unlines(ls) + Join(b, "\n") + "\n"
    decreases |b|
  {
    var n := |b| - 1;
    if n == 0 {
      UnlinesSnoc(ls, b[0]);
      assert b == [b[0]];
    } else {
      var pre := b[..n];
      assert ls + b == (ls + pre) + [b[n]] && b == pre + [b[n]];
      UnlinesSnoc(ls + pre, b[n]);
      UnlinesAppend(ls, pre);
      JoinAppend(pre, [b[n]], "\n");
    }
  }

  /** The first two lines, as the source writes them. */
  lemma HeadLines(h: string)
    ensures h + "\n\n" == Unlines([h] + [""])
  {
    UnlinesSnoc([h], "");
    UnlinesSnoc([], h);
    assert [h] + [""] == [h, ""] && [] + [h] == [h];
  }

  /** The player block: the label, the players (or `(none)`) and a blank line. */
  lemma PlayerBlock(ls: seq<string>, msg: string, caption: string, ps: seq<string>)
    requires ps != [] && msg == Unlines(ls)
    ensures msg + caption + "\n" + Join(ps, "\n") + "\n\n" == Unlines(ls + [caption] + ps + [""])
  {
    UnlinesSnoc(ls, caption);
    UnlinesAppend(ls + [caption], ps);
    UnlinesSnoc(ls + [caption] + ps, "");
  }

  /** One more line. */
  lemma OneLine(ls: seq<string>, msg: string, x: string)
    requires msg == Unlines(ls)
    ensures msg + x + "\n" == Unlines(ls + [x])
  {
    UnlinesSnoc(ls, x);
  }

  /** A final line break does not survive the strip. */
  lemma StripNewline(s: string)
    ensures Strip(s + "\n") == Strip(s)
  {
    var u := s + "\n";
    assert u[|u| - 1] == '\n' && u[..|u| - 1] == s;
    var t := TrailingSpace(s);
    assert TrailingSpace(u) == 1 + t;
    var cu := u[..|u| - TrailingSpace(u)];
    var cs := s[..|s| - t];
    assert cu == cs;
    StripTrailingCut(u);
    StripTrailingCut(s);
    assert Strip(u) == Strip(cu) == Strip(cs) == Strip(s);
  }

  /** The source builds the message with `+=`, a line or a block at a time: after
      each step it is the lines so far, each followed by a line break. */
  method FormatTradeBlockMessage(d: Data) returns (msg: string)
    requires d.BlockData?
    ensures msg == TradeBlockMessage(d)
  {
    var playersList := if d.playersOffered != [] then Join(d.playersOffered, "\n") else "(none)";
    var header := "**" + d.team + "** updated their trade block";
    msg := header + "\n\n";
    HeadLines(header);
    ghost var lines := [header] + [""];
    PlayerBlock(lines, msg, "**Players Offered:**", PlayerLines(d.playersOffered));
    msg := msg + "**Players Offered:**" + "\n" + playersList + "\n\n";
    lines := lines + ["**Players Offered:**"] + PlayerLines(d.playersOffered) + [""];
    OneLine(lines, msg, "**Positions Offered:** " + d.positionsOffered);
    msg := msg + ("**Positions Offered:** " + d.positionsOffered) + "\n";
    lines := lines + ["**Positions Offered:** " + d.positionsOffered];
    OneLine(lines, msg, "**Stats Offered:** " + d.statsOffered);
    msg := msg + ("**Stats Offered:** " + d.statsOffered) + "\n";
    lines := lines + ["**Stats Offered:** " + d.statsOffered];
    OneLine(lines, msg, "**Positions Needed:** " + d.positionsNeeded);
    msg := msg + ("**Positions Needed:** " + d.positionsNeeded) + "\n";
    lines := lines + ["**Positions Needed:** " + d.positionsNeeded];
    OneLine(lines, msg, "**Stats Needed:** " + d.statsNeeded);
    msg := msg + ("**Stats Needed:** " + d.statsNeeded) + "\n";
    lines := lines + ["**Stats Needed:** " + d.statsNeeded];
    if d.comment != [] {
      OneLine(lines, msg, "**Comment:** " + d.comment);
      msg := msg + ("**Comment:** " + d.comment) + "\n";
      lines := lines + ["**Comment:** " + d.comment];
    } else {
      assert lines + [] == lines;
    }
    msg := Strip(msg);
  }

  /** Lines that end in a line break are their join and that break. */
  lemma UnlinesJoin(ls: seq<string>)
    requires ls != []
    ensures Unlines(ls) == Join(ls, "\n") + "\n"
  {
    var e: seq<string> := [];
    UnlinesAppend(e, ls);
    assert e + ls == ls;
    var j := Join(ls, "\n");
    assert Unlines(e) == [];
    assert Unlines(e) + j == j;
  }

  /** The join ends with the last line. */
  lemma JoinLast(ls: seq<string>)
    requires |ls| >= 2
    ensures Join(ls, "\n") == Join(ls[..|ls| - 1], "\n") + "\n" + ls[|ls| - 1]
  {
    var n := |ls| - 1;
    var last: seq<string> := [ls[n]];
    JoinAppend(ls[..n], last, "\n");
    assert ls[..n] + last == ls;
    assert Join(last, "\n") == ls[n];
  }

  /** A parsed trade block loses nothing but its final line break to the strip:
      the message is exactly its lines joined. */
  lemma TradeBlockTrim(d: Data)
    requires WellFormed(d)
    ensures TradeBlockMessage(d) == Join(TradeBlockLines(d), "\n")
  {
    BlockEnds(d);
    TrimLines(TradeBlockLines(d));
  }

  /** Lines that start and end with visible characters: stripping them, each
      followed by a line break, gives their join. */
  lemma TrimLines(ls: seq<string>)
    requires |ls| >= 2 && ls[0] != [] && ls[|ls| - 1] != []
    requires !IsSpace(ls[0][0]) && !IsSpace(ls[|ls| - 1][|ls[|ls| - 1]| - 1])
    ensures Strip(Unlines(ls)) == Join(ls, "\n")
  {
    var j := Join(ls, "\n");
    UnlinesJoin(ls);
    StripNewline(j);
    JoinEndChars(ls);
    StripStripped(j);
  }

  /** The first line of a trade block starts with `*`; its last line ends with
      the stripped comment or the stripped stats needed. */
  lemma BlockEnds(d: Data)
    requires WellFormed(d)
    ensures var ls := TradeBlockLines(d);
      |ls| >= 2 && ls[0] != [] && !IsSpace(ls[0][0]) &&
      ls[|ls| - 1] != [] && !IsSpace(ls[|ls| - 1][|ls[|ls| - 1]| - 1])
  {
    var ls := TradeBlockLines(d);
    var last := ls[|ls| - 1];
    assert last == (if d.comment != [] then "**Comment:** " + d.comment else "**Stats Needed:** " + d.statsNeeded);
  }

  /** The join starts with the first character of the first line and ends with
      the last character of the last line. */
  lemma JoinEndChars(ls: seq<string>)
    requires |ls| >= 2 && ls[0] != [] && ls[|ls| - 1] != []
    ensures var j := Join(ls, "\n");
      j != [] && j[0] == ls[0][0] && j[|j| - 1] == ls[|ls| - 1][|ls[|ls| - 1]| - 1]
  {
    var j := Join(ls, "\n");
    assert j == ls[0] + ("\n" + Join(ls[1..], "\n"));
    JoinLast(ls);
  }

  /** No line break in any of `ls`. */
  predicate NoBreaks(ls: seq<string>) {
    forall n :: 0 <= n < |ls| ==> NoBreak(ls[n])
  }

  /** Every field of the block fits on a line of its own. */
  predicate OneLineFields(d: Data)
    requires d.BlockData?
  {
    NoBreak(d.team) && NoBreak(d.positionsOffered) && NoBreak(d.statsOffered) &&
    NoBreak(d.positionsNeeded) && NoBreak(d.statsNeeded) && NoBreak(d.comment) && NoBreaks(d.playersOffered)
  }

  lemma NoBreaksConcat(a: seq<string>, b: seq<string>)
    requires NoBreaks(a) && NoBreaks(b)
    ensures NoBreaks(a + b)
  {
    assert forall n :: |a| <= n < |a + b| ==> (a + b)[n] == b[n - |a|];
  }

  /** A labelled line of a one-line field is one line. */
  lemma LabelLine(caption: string, field: string)
    requires NoBreak(caption) && NoBreak(field)
    ensures NoBreaks([caption + field])
  {
    NoBreakConcat(caption, field);
  }

  /** No line of the block of one-line fields breaks. */
  lemma BlockLinesNoBreak(d: Data)
    requires d.BlockData? && OneLineFields(d)
    ensures NoBreaks(TradeBlockLines(d))
  {
    var head := "**" + d.team + "** updated their trade block";
    NoBreakConcat("**", d.team);
    NoBreakConcat("**" + d.team, "** updated their trade block");
    var ls1 := [head] + [""] + ["**Players Offered:**"];
    assert NoBreaks(ls1);
    var ls2 := PlayerLines(d.playersOffered);
    assert NoBreaks(ls2);
    NoBreaksConcat(ls1, ls2);
    NoBreaksConcat(ls1 + ls2, [""]);
    LabelLine("**Positions Offered:** ", d.positionsOffered);
    LabelLine("**Stats Offered:** ", d.statsOffered);
    LabelLine("**Positions Needed:** ", d.positionsNeeded);
    LabelLine("**Stats Needed:** ", d.statsNeeded);
    var ls3 := ls1 + ls2 + [""];
    NoBreaksConcat(ls3, ["**Positions Offered:** " + d.positionsOffered]);
    var ls4 := ls3 + ["**Positions Offered:** " + d.positionsOffered];
    NoBreaksConcat(ls4, ["**Stats Offered:** " + d.statsOffered]);
    var ls5 := ls4 + ["**Stats Offered:** " + d.statsOffered];
    NoBreaksConcat(ls5, ["**Positions Needed:** " + d.positionsNeeded]);
    var ls6 := ls5 + ["**Positions Needed:** " + d.positionsNeeded];
    NoBreaksConcat(ls6, ["**Stats Needed:** " + d.statsNeeded]);
    var ls7 := ls6 + ["**Stats Needed:** " + d.statsNeeded];
    var tail: seq<string> := if d.comment != [] then ["**Comment:** " + d.comment] else [];
    if d.comment != [] {
      LabelLine("**Comment:** ", d.comment);
    }
    NoBreaksConcat(ls7, tail);
    assert TradeBlockLines(d) == ls7 + tail;
  }

  /** For a parsed trade block whose fields hold no line break, the lines of the
      message are the lines above: the players or `(none)`, and a comment line
      exactly when there is a comment. */
  lemma TradeBlockMessageLines(d: Data)
    requires WellFormed(d) && OneLineFields(d)
    ensures Split(TradeBlockMessage(d), "\n") == TradeBlockLines(d)
  {
    TradeBlockTrim(d);
    BlockLinesNoBreak(d);
    SplitJoin(TradeBlockLines(d), '\n');
  }

  /** Where the source would raise: a trade-block notice must carry trade-block
      fields, and a draft notice must not carry a claim (it lacks a round). */
  predicate Fits(k: Kind, data: Option<Data>) {
    data.None? ||
    ((k == Block ==> data.value.BlockData?) && (k == Draft ==> !data.value.ClaimData?))
  }

  /** `data.get("raw", "")`. */
  function RawOf(d: Data): string {
    if d.RawData? then d.raw else ""
  }

  /** The body of the message under the title. */
  function Details(k: Kind, data: Option<Data>): (r: string)
    requires Fits(k, data)
    ensures data.None? || k == Unknown ==> r == ""
    ensures data.Some? && data.value.RawData? && k in {Claim, Drop, Draft} ==> r == data.value.raw
    ensures k == Block && data.Some? && WellFormed(data.value) ==> r == Join(TradeBlockLines(data.value), "\n")
    ensures k == Trade && data.Some? && data.value.TradeData? ==> r == data.value.details
  {
    match data
    case None => ""
    case Some(d) =>
      match k
      case Block =>
        if WellFormed(d) then TradeBlockTrim(d); TradeBlockMessage(d) else TradeBlockMessage(d)
      case Trade =>
        if d.TradeData? || d.ClaimData? then d.details else ""
      case Claim =>
        if d.ClaimData? || d.DraftData? then "**" + d.team + "** claimed " + d.player else RawOf(d)
      case Drop =>
        if d.DropData? then "Players dropped to waivers:\n" + Join(d.players, "\n") else RawOf(d)
      case Draft =>
        if d.DraftData? then "**" + d.team + "** drafted **" + d.player + "**\nRound " + d.round + ", Pick " + d.pick
        else RawOf(d)
      case Unknown => ""
  }

  const DropHeading := "Players dropped to waivers:"

  /** The details of a drop, read back line by line: the heading, then one line per
      player (an empty line when there is none). */
  lemma DropDetailsLines(d: Data)
    requires d.DropData?
    requires forall n, x :: 0 <= n < |d.players| && 0 <= x < |d.players[n]| ==> d.players[n][x] != '\n'
    ensures Split(Details(Drop, Some(d)), "\n") == [DropHeading] + (if d.players == [] then [""] else d.players)
  {
    var body := Join(d.players, "\n");
    assert Details(Drop, Some(d)) == DropHeading + "\n" + body;
    SplitFirstLine(DropHeading, body);
    if d.players == [] {
      assert Split(body, "\n") == [""];
    } else {
      SplitJoin(d.players, '\n');
    }
  }

  /** A claim's details start with the team in bold and end with the player. */
  lemma ClaimShown(d: Data)
    requires d.ClaimData? || d.DraftData?
    ensures var r := Details(Claim, Some(d));
      |d.team| + 4 + |d.player| <= |r| &&
      r[..|d.team| + 4] == "**" + d.team + "**" && r[|r| - |d.player|..] == d.player &&
      Contains(r, d.team) && Contains(r, d.player)
  {
    ClaimText(d.team, d.player, Details(Claim, Some(d)));
  }

  lemma ClaimText(team: string, player: string, r: string)
    requires r == "**" + team + "** claimed " + player
    ensures |team| + 4 + |player| <= |r| &&
      r[..|team| + 4] == "**" + team + "**" && r[|r| - |player|..] == player &&
      Contains(r, team) && Contains(r, player)
  {
    var a1 := "**" + team;
    var a2 := a1 + "** claimed ";
    assert r[..|team| + 4] == "**" + team + "**" by {
      assert forall x :: 0 <= x < |team| + 4 ==> r[x] == a2[x];
    }
    assert r[|r| - |player|..] == player;
    ContainsEnd("**", team);
    ContainsGrow(a1, "** claimed ", team);
    ContainsGrow(a2, player, team);
    ContainsEnd(a2, player);
  }

  /** A draft's details show the team, the player, the round and the pick. */
  lemma DraftShown(d: Data)
    requires d.DraftData?
    ensures var r := Details(Draft, Some(d));
      Contains(r, d.team) && Contains(r, d.player) && Contains(r, d.round) && Contains(r, d.pick)
  {
    DraftText(d.team, d.player, d.round, d.pick, Details(Draft, Some(d)));
  }

  lemma DraftText(team: string, player: string, round: string, pick: string, r: string)
    requires r == "**" + team + "** drafted **" + player + "**\nRound " + round + ", Pick " + pick
    ensures Contains(r, team) && Contains(r, player) && Contains(r, round) && Contains(r, pick)
  {
    var a1 := "**" + team;
    var a2 := a1 + "** drafted **";
    var a3 := a2 + player;
    var a4 := a3 + "**\nRound ";
    var a5 := a4 + round;
    var a6 := a5 + ", Pick ";
    ContainsEnd("**", team);
    ContainsGrow(a1, "** drafted **", team);
    ContainsGrow(a2, player, team);
    ContainsGrow(a3, "**\nRound ", team);
    ContainsGrow(a4, round, team);
    ContainsGrow(a5, ", Pick ", team);
    ContainsGrow(a6, pick, team);
    ContainsEnd(a2, player);
    ContainsGrow(a3, "**\nRound ", player);
    ContainsGrow(a4, round, player);
    ContainsGrow(a5, ", Pick ", player);
    ContainsGrow(a6, pick, player);
    ContainsEnd(a4, round);
    ContainsGrow(a5, ", Pick ", round);
    ContainsGrow(a6, pick, round);
    ContainsEnd(a6, pick);
  }

  /** The first line of every message: emoji, then the title in bold. */
  function Header(k: Kind): string {
    Emoji(k) + " **" + Title(k) + "**\n\n"
  }

  /** `_format_discord_message`: header, details, and a blank line. Its first
      character names the kind. */
  function DiscordMessage(k: Kind, data: Option<Data>): (r: string)
    requires Fits(k, data)
    ensures |r| >= 2 && EmojiKind(r[0]) == Some(k) && r[|r| - 2..] == "\n\n"
  {
    HeaderKind(k);
    Header(k) + Details(k, data) + "\n\n"
  }

  /** The kind an emoji stands for. */
  function EmojiKind(c: char): Option<Kind> {
    if c == '\U{2705}' then Some(Claim)
    else if c == '\U{1F6AB}' then Some(Drop)
    else if c == '\U{1F504}' then Some(Trade)
    else if c == '\U{1F7E6}' then Some(Block)
    else if c == '\U{1F37A}' then Some(Draft)
    else if c == '\U{1F4CB}' then Some(Unknown)
    else None
  }

  /** Reading a message back: the kind from its first character, then the
      details between the header and the final blank line. */
  function ReadMessage(r: string): Option<(Kind, string)> {
    if r == [] then None
    else match EmojiKind(r[0])
      case None => None
      case Some(k) =>
        var h := Header(k);
        if |h| + 2 <= |r| && r[..|h|] == h && r[|r| - 2..] == "\n\n" then Some((k, r[|h|..|r| - 2]))
        else None
  }

  /** The header starts with the emoji of its kind. */
  lemma HeaderKind(k: Kind)
    ensures |Header(k)| > 0 && EmojiKind(Header(k)[0]) == Some(k)
  {
    assert Header(k)[0] == Emoji(k)[0];
  }

  lemma Framed(h: string, dt: string)
    ensures var r := h + dt + "\n\n";
      r[..|h|] == h && r[|r| - 2..] == "\n\n" && r[|h|..|r| - 2] == dt
  {
  }

  /** Every message names its kind and its details unambiguously: reading it back
      gives both. */
  lemma ReadFormatted(k: Kind, data: Option<Data>)
    requires Fits(k, data)
    ensures ReadMessage(DiscordMessage(k, data)) == Some((k, Details(k, data)))
  {
    var h := Header(k);
    var dt := Details(k, data);
    HeaderKind(k);
    Framed(h, dt);
  }
}
