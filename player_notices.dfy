/**
 * `_parse_claim`, `_parse_drop` and `_parse_draft` of transactions/email.py:
 * one pattern each, searched in the text of the e-mail, the groups cleaned
 * up; without a match the parser hands back the text itself as `RawData`.
 */
module PlayerNotices {
  import opened Wrappers
  import opened Text
  import opened Regex
  import opened RegexFacts
  import opened Captures
  import opened Notice

  /** `[\w\s\-']`. */
  const NameChar := Union(true, false, true, false, ['-', '\''])
  /** `[A-Z]`. */
  const Upper := Union(false, false, false, true, [])
  /** `[\w,]`. */
  const DetailChar := Union(false, false, true, false, [','])

  /** `\*(.+?)\*\s*\n\s*([\w\s\-']+)\s+([A-Z]+)\s*-\s*([\w,]+.*)`. */
  const ClaimAtoms: Pattern := [
    Lit("*"), Open(1), Rep(NotNewline, 1, false), Close(1), Lit("*"),
    Rep(Spaces, 0, true), Lit("\n"), Rep(Spaces, 0, true),
    Open(2), Rep(NameChar, 1, true), Close(2), Rep(Spaces, 1, true),
    Open(3), Rep(Upper, 1, true), Close(3), Rep(Spaces, 0, true), Lit("-"), Rep(Spaces, 0, true),
    Open(4), Rep(DetailChar, 1, true), Rep(NotNewline, 0, true), Close(4)]
  const ClaimPattern := Regex([ClaimAtoms])

  /** `re-entered the\s+player pool as free agents.*?:\s*(.*?)(?:Note that|Thanks|$)`
      under `re.DOTALL`. */
  const DropAtoms: Pattern := [
    Lit("re-entered the"), Rep(Spaces, 1, true), Lit("player pool as free agents"),
    Rep(AnyChar, 0, false), Lit(":"), Rep(Spaces, 0, true),
    Open(1), Rep(AnyChar, 0, false), Close(1), AltLit(["Note that", "Thanks"], true)]
  const DropPattern := Regex([DropAtoms])

  /** `Round\s+(\d+)\s*,\s*Pick\s+(\d+)\s*:\s*(.+?)\s+was picked by the team\s+(.+?)\s*\.`
      under `re.DOTALL`. */
  const DraftAtoms: Pattern := [
    Lit("Round"), Rep(Spaces, 1, true), Open(1), Rep(Digits, 1, true), Close(1),
    Rep(Spaces, 0, true), Lit(","), Rep(Spaces, 0, true),
    Lit("Pick"), Rep(Spaces, 1, true), Open(2), Rep(Digits, 1, true), Close(2),
    Rep(Spaces, 0, true), Lit(":"), Rep(Spaces, 0, true),
    Open(3), Rep(AnyChar, 1, false), Close(3), Rep(Spaces, 1, true),
    Lit("was picked by the team"), Rep(Spaces, 1, true),
    Open(4), Rep(AnyChar, 1, false), Close(4), Rep(Spaces, 0, true), Lit(".")]
  const DraftPattern := Regex([DraftAtoms])

  /** The claim parser: team, `"<name> <SURNAME>"` and details, or the raw text. */
  function ParseClaim(text: string): (r: Data)
    ensures r.RawData? || r.ClaimData?
    ensures r.RawData? <==> forall j :: 0 <= j <= |text| ==> MatchAt(ClaimPattern, text, j).None?
    ensures r.RawData? ==> r.raw == text
    ensures r.ClaimData? ==> Stripped(r.team) && Stripped(r.details)
  {
    match Search(ClaimPattern, text)
    case None => RawData(text)
    case Some(m) =>
      ClaimData(Strip(Group(text, m, 1)),
                Strip(Group(text, m, 2)) + " " + Strip(Group(text, m, 3)),
                Strip(Group(text, m, 4)))
  }

  /** The drop parser: the stripped non-empty lines of the group, or the raw text. */
  function ParseDrop(text: string): (r: Data)
    ensures r.RawData? || r.DropData?
    ensures r.RawData? <==> forall j :: 0 <= j <= |text| ==> MatchAt(DropPattern, text, j).None?
    ensures r.RawData? ==> r.raw == text
  {
    match Search(DropPattern, text)
    case None => RawData(text)
    case Some(m) => DropData(KeepStripped(Split(Strip(Group(text, m, 1)), "\n")))
  }

  /** `re.sub(r"\s+", " ", g.strip())`. */
  function Squash(g: string): string {
    Squeeze(Spaces, Strip(g), 0);
    Sub(Runs(Spaces, 1), Strip(g), " ")
  }

  /** The draft parser: round, pick, player and team, or the raw text. */
  function ParseDraft(text: string): (r: Data)
    ensures r.RawData? || r.DraftData?
    ensures r.RawData? <==> forall j :: 0 <= j <= |text| ==> MatchAt(DraftPattern, text, j).None?
    ensures r.RawData? ==> r.raw == text
  {
    match Search(DraftPattern, text)
    case None => RawData(text)
    case Some(m) =>
      DraftData(Squash(Group(text, m, 1)), Squash(Group(text, m, 2)),
                Squash(Group(text, m, 3)), Squash(Group(text, m, 4)))
  }

  /** Stripping removes white space only. */
  lemma OutsideStrip(g: string)
    ensures Outside(Spaces, Strip(g)) == Outside(Spaces, g)
  {
    var i, j := StripBounds(g);
    assert g == g[..i] + (g[i..j] + g[j..]);
    OutsideConcat(Spaces, g[..i], g[i..j] + g[j..]);
    OutsideConcat(Spaces, g[i..j], g[j..]);
    assert AllSpace(g[..i]);
    forall x | 0 <= x < |g[..i]| ensures InClass(Spaces, g[..i][x]) {
      assert IsSpace(g[..i][x]);
    }
    assert AllSpace(g[j..]);
    forall x | 0 <= x < |g[j..]| ensures InClass(Spaces, g[j..][x]) {
      assert IsSpace(g[j..][x]);
    }
    OutsideAll(Spaces, g[..i]);
    OutsideAll(Spaces, g[j..]);
  }

  /** A squashed field is stripped, its only white space is single blanks, and it
      keeps every other character of the group, in order. */
  lemma SquashFacts(g: string)
    ensures var r := Squash(g);
      Stripped(r) && Squeezed(Spaces, r) && Outside(Spaces, r) == Outside(Spaces, g) &&
      r == SqueezeRef(Spaces, Strip(g))
  {
    var s := Strip(g);
    var r := Squash(g);
    Squeeze(Spaces, s, 0);
    assert s[0..] == s;
    OutsideStrip(g);
    if r != [] {
      assert r[0] == s[0] && r[|r| - 1] == s[|s| - 1];
    }
  }

  /** Text without white space is its own squash. */
  lemma SquashNoSpace(g: string)
    requires forall x :: 0 <= x < |g| ==> !IsSpace(g[x])
    ensures Squash(g) == g
  {
    StripStripped(g);
    assert NonEmpty(Runs(Spaces, 1)) by {
      assert MinLen(Runs(Spaces, 1).branches[0]) == 1;
    }
    forall x | 0 <= x <= |g| ensures MatchAt(Runs(Spaces, 1), g, x).None? {
      RunsAt(Spaces, 1, g, x);
    }
    SearchMiss(Runs(Spaces, 1), g);
    assert g[0..] == g;
  }

  /** A non-empty digit string. */
  predicate Numeral(t: string) {
    t != [] && forall x :: 0 <= x < |t| ==> IsDigit(t[x])
  }

  lemma RoundWraps()
    ensures Wraps(DraftAtoms, 1, 2, Digits, 1)
  {
  }

  lemma PickWraps()
    ensures Wraps(DraftAtoms, 2, 10, Digits, 1)
  {
  }

  /** A digit group of the draft pattern is a numeral and its own squash. */
  lemma NumeralGroup(text: string, g: nat, k: nat)
    requires Wraps(DraftAtoms, g, k, Digits, 1)
    requires Search(DraftPattern, text).Some?
    ensures var grp := Group(text, Search(DraftPattern, text).value, g);
      Numeral(grp) && Squash(grp) == grp
  {
    GroupIn(DraftAtoms, g, k, Digits, 1, text);
    DigitsNumeral(Group(text, Search(DraftPattern, text).value, g));
  }

  /** A non-empty run of digits is a numeral and its own squash. */
  lemma DigitsNumeral(grp: string)
    requires |grp| >= 1 && forall x :: 0 <= x < |grp| ==> InClass(Digits, grp[x])
    ensures Numeral(grp) && Squash(grp) == grp
  {
    assert forall x :: 0 <= x < |grp| ==> IsDigit(grp[x]);
    SquashNoSpace(grp);
  }

  /** A parsed draft pick: round and pick are numerals, as the e-mail wrote them;
      player and team are stripped, hold single blanks as their only white space,
      and keep every other character of their groups in order. */
  lemma DraftFields(text: string)
    requires ParseDraft(text).DraftData?
    ensures var r := ParseDraft(text);
      Numeral(r.round) && Numeral(r.pick) &&
      Stripped(r.player) && Squeezed(Spaces, r.player) &&
      Stripped(r.team) && Squeezed(Spaces, r.team)
    ensures var m := Search(DraftPattern, text).value;
      ParseDraft(text).round == Group(text, m, 1) && ParseDraft(text).pick == Group(text, m, 2) &&
      Outside(Spaces, ParseDraft(text).player) == Outside(Spaces, Group(text, m, 3)) &&
      Outside(Spaces, ParseDraft(text).team) == Outside(Spaces, Group(text, m, 4))
  {
    var m := Search(DraftPattern, text).value;
    RoundWraps();
    NumeralGroup(text, 1, 2);
    PickWraps();
    NumeralGroup(text, 2, 10);
    SquashFacts(Group(text, m, 3));
    SquashFacts(Group(text, m, 4));
  }

  lemma ClaimTeamWraps()
    ensures Wraps(ClaimAtoms, 1, 1, NotNewline, 1)
  {
  }

  lemma ClaimNameWraps()
    ensures Wraps(ClaimAtoms, 2, 8, NameChar, 1)
  {
  }

  lemma ClaimSurnameWraps()
    ensures Wraps(ClaimAtoms, 3, 12, Upper, 1)
  {
  }

  /** A strip is a slice: what holds for every character of the text holds for
      every character of its strip. */
  lemma StripChars(g: string, cls: Class)
    requires forall x :: 0 <= x < |g| ==> InClass(cls, g[x])
    ensures forall x :: 0 <= x < |Strip(g)| ==> InClass(cls, Strip(g)[x])
  {
    var i, j := StripBounds(g);
    assert forall x :: 0 <= x < j - i ==> g[i..j][x] == g[i + x];
  }

  /** `"<name> <SURNAME>"`: a name of characters of `[\w\s\-']` without white
      space at either end, one blank, and a non-empty run of capital letters. */
  predicate PlayerShape(p: string) {
    exists k :: 0 <= k < |p| && p[k] == ' ' && Stripped(p[..k]) &&
      (forall x :: 0 <= x < k ==> InClass(NameChar, p[x])) &&
      k + 1 < |p| && forall x :: k < x < |p| ==> 'A' <= p[x] <= 'Z'
  }

  lemma PlayerJoin(name: string, surname: string)
    requires Stripped(name) && forall x :: 0 <= x < |name| ==> InClass(NameChar, name[x])
    requires surname != [] && forall x :: 0 <= x < |surname| ==> InClass(Upper, surname[x])
    ensures PlayerShape(name + " " + surname)
  {
    var p := name + " " + surname;
    var k := |name|;
    assert p[..k] == name && p[k] == ' ';
    assert forall x :: k < x < |p| ==> p[x] == surname[x - k - 1];
  }

  /** Group 3 of a claim is a non-empty run of capital letters: its own strip. */
  lemma ClaimSurname(text: string)
    requires Search(ClaimPattern, text).Some?
    ensures var g3 := Group(text, Search(ClaimPattern, text).value, 3);
      g3 != [] && Strip(g3) == g3 && forall x :: 0 <= x < |g3| ==> InClass(Upper, g3[x])
  {
    ClaimSurnameWraps();
    GroupIn(ClaimAtoms, 3, 12, Upper, 1, text);
    UpperStripped(Group(text, Search(ClaimPattern, text).value, 3));
  }

  /** A non-empty run of capital letters is its own strip. */
  lemma UpperStripped(g: string)
    requires g != [] && forall x :: 0 <= x < |g| ==> InClass(Upper, g[x])
    ensures Strip(g) == g
  {
    assert InClass(Upper, g[0]) && InClass(Upper, g[|g| - 1]);
    StripStripped(g);
  }

  /** Group 2 of a claim, stripped, holds characters of `[\w\s\-']` only. */
  lemma ClaimName(text: string)
    requires Search(ClaimPattern, text).Some?
    ensures var g2 := Group(text, Search(ClaimPattern, text).value, 2);
      forall x :: 0 <= x < |Strip(g2)| ==> InClass(NameChar, Strip(g2)[x])
  {
    ClaimNameWraps();
    GroupIn(ClaimAtoms, 2, 8, NameChar, 1, text);
    StripChars(Group(text, Search(ClaimPattern, text).value, 2), NameChar);
  }

  /** Group 1 of a claim, stripped, stays on one line. */
  lemma ClaimTeam(text: string)
    requires Search(ClaimPattern, text).Some?
    ensures var g1 := Group(text, Search(ClaimPattern, text).value, 1);
      forall x :: 0 <= x < |Strip(g1)| ==> Strip(g1)[x] != '\n'
  {
    ClaimTeamWraps();
    GroupIn(ClaimAtoms, 1, 1, NotNewline, 1, text);
    StripChars(Group(text, Search(ClaimPattern, text).value, 1), NotNewline);
  }

  /** A parsed claim: the team is on one line, and the player is a name, one
      blank and a surname in capital letters. */
  lemma ClaimFields(text: string)
    requires ParseClaim(text).ClaimData?
    ensures forall x :: 0 <= x < |ParseClaim(text).team| ==> ParseClaim(text).team[x] != '\n'
    ensures PlayerShape(ParseClaim(text).player)
  {
    var m := Search(ClaimPattern, text).value;
    ClaimTeam(text);
    ClaimName(text);
    ClaimSurname(text);
    PlayerJoin(Strip(Group(text, m, 2)), Group(text, m, 3));
  }

  /** A parsed drop: every player is a non-empty stripped line of its own. */
  lemma DropPlayers(text: string)
    requires ParseDrop(text).DropData?
    ensures var ps := ParseDrop(text).players;
      forall k :: 0 <= k < |ps| ==> ps[k] != [] && Stripped(ps[k]) && !Contains(ps[k], "\n")
  {
    var m := Search(DropPattern, text).value;
    var pieces := Split(Strip(Group(text, m, 1)), "\n");
    var ps := KeepStripped(pieces);
    forall k | 0 <= k < |ps| ensures !Contains(ps[k], "\n") {
      var n :| 0 <= n < |pieces| && ps[k] == Strip(pieces[n]);
      StripWithout(pieces[n], "\n");
    }
  }
}
