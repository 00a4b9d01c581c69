/**
 * The regular expressions of the two bots, as data, and a matcher with the
 * semantics of Python's `re` engine for them: a search tries start positions
 * from left to right; at a start position it tries the top-level alternatives
 * in order; inside a pattern a greedy repetition tries its longest run first
 * and gives back one character at a time, a lazy one tries its shortest run
 * first, and an alternation of literals tries its options in order, each time
 * backtracking into the rest of the pattern.
 *
 * Every pattern of the source is a sequence of atoms: literal text, one
 * character of a class, a repetition of a class (`*`, `+`, `{2,}`, greedy or
 * lazy), the two ends of a capture group, and an alternation of literals that
 * may end with `$`.
 */
module Regex {
  import opened Wrappers
  import opened Text

  /** A character of `\d` in Latin-1: the ASCII digits. */
  predicate IsDigit(c: char) {
    '0' <= c <= '9'
  }

  /** A character of `\w` in Latin-1: letters, digits and numerals, and `_`. */
  predicate IsWordChar(c: char) {
    ('a' <= c <= 'z') || ('A' <= c <= 'Z') || IsDigit(c) || c == '_' ||
    c == '\U{00AA}' || c == '\U{00B2}' || c == '\U{00B3}' || c == '\U{00B5}' ||
    c == '\U{00B9}' || c == '\U{00BA}' || ('\U{00BC}' <= c <= '\U{00BE}') ||
    ('\U{00C0}' <= c <= '\U{00FF}' && c != '\U{00D7}' && c != '\U{00F7}')
  }

  /** A character class: `.` with or without `re.DOTALL`, or a bracket expression
      made of `\s`, `\d`, `\w`, `A-Z` and single characters. */
  datatype Class =
    | AnyChar
    | NotNewline
    | Union(space: bool, digit: bool, word: bool, upper: bool, chars: seq<char>)

  predicate InClass(cls: Class, c: char) {
    match cls
    case AnyChar => true
    case NotNewline => c != '\n'
    case Union(space, digit, word, upper, chars) =>
      (space && IsSpace(c)) || (digit && IsDigit(c)) || (word && IsWordChar(c)) ||
      (upper && 'A' <= c <= 'Z') || c in chars
  }

  const Spaces := Union(true, false, false, false, [])
  const Digits := Union(false, true, false, false, [])
  const Blank := Union(false, false, false, false, [' '])
  const Newline := Union(false, false, false, false, ['\n'])

  datatype Atom =
    | Lit(text: string)                            // literal text
    | One(cls: Class)                              // exactly one character of a class
    | Rep(cls: Class, min: nat, greedy: bool)      // at least `min` characters of a class
    | Open(group: nat)                             // `(`
    | Close(group: nat)                            // `)`
    | AltLit(options: seq<string>, orEnd: bool)    // `(?:o1|o2|...)`, with a final `|$` when orEnd

  type Pattern = seq<Atom>

  /** A pattern with top-level alternatives `b1|b2|...`. */
  datatype Regex = Regex(branches: seq<Pattern>)

  /** Where the capture groups opened (key 2g) and closed (key 2g + 1). */
  type Caps = map<nat, nat>

  predicate Bounded(caps: Caps, n: nat) {
    forall k :: k in caps ==> caps[k] <= n
  }

  /** The end position and the captures of a match of a pattern. */
  datatype Hit = Hit(end: nat, caps: Caps)

  /** A match of a regex: where it starts and ends, and its captures. */
  datatype Match = Match(start: nat, end: nat, caps: Caps)

  /** Python's `$` without `re.MULTILINE`: at the end, or before a final newline. */
  predicate AtEnd(s: string, i: nat) {
    i == |s| || (i + 1 == |s| && s[i] == '\n')
  }

  /** The fewest characters a pattern consumes when it matches. */
  function MinLen(p: Pattern): nat {
    if p == [] then 0 else AtomMinLen(p[0]) + MinLen(p[1..])
  }

  function AtomMinLen(a: Atom): nat {
    match a
    case Lit(t) => |t|
    case One(_) => 1
    case Rep(_, min, _) => min
    case Open(_) => 0
    case Close(_) => 0
    case AltLit(opts, orEnd) => if orEnd then 0 else Shortest(opts)
  }

  function Shortest(opts: seq<string>): nat {
    if opts == [] then 0
    else if |opts| == 1 then |opts[0]|
    else
      var m := Shortest(opts[1..]);
      if |opts[0]| < m then |opts[0]| else m
  }

  lemma {:induction false} ShortestBelow(opts: seq<string>, k: nat)
    requires k < |opts|
    ensures Shortest(opts) <= |opts[k]|
  {
    if k > 0 { ShortestBelow(opts[1..], k - 1); }
  }

  /** Length of the longest run of characters of `cls` starting at `i`. */
  function Run(cls: Class, s: string, i: nat): (n: nat)
    requires i <= |s|
    ensures i + n <= |s|
    decreases |s| - i
  {
    if i < |s| && InClass(cls, s[i]) then 1 + Run(cls, s, i + 1) else 0
  }

  /** The run holds only characters of `cls`, and the character after it is not one. */
  lemma {:induction false} RunBounds(cls: Class, s: string, i: nat)
    requires i <= |s|
    ensures forall k :: i <= k < i + Run(cls, s, i) ==> InClass(cls, s[k])
    ensures i + Run(cls, s, i) < |s| ==> !InClass(cls, s[i + Run(cls, s, i)])
    decreases |s| - i
  {
    if i < |s| && InClass(cls, s[i]) {
      RunBounds(cls, s, i + 1);
    }
  }

  /** Match pattern `p` at position `i` of `s`, with the captures so far. A hit
      consumes at least `MinLen(p)` characters and records positions inside `s`. */
  function MatchSeq(p: Pattern, s: string, i: nat, caps: Caps): (r: Option<Hit>)
    requires i <= |s| && Bounded(caps, |s|)
    ensures r.Some? ==> i + MinLen(p) <= r.value.end <= |s| && Bounded(r.value.caps, |s|)
    decreases |p|, 0, 0
  {
    if p == [] then Some(Hit(i, caps))
    else
      match p[0]
      case Lit(t) =>
        if At(s, t, i) then MatchSeq(p[1..], s, i + |t|, caps) else None
      case One(cls) =>
        if i < |s| && InClass(cls, s[i]) then MatchSeq(p[1..], s, i + 1, caps) else None
      case Rep(cls, min, greedy) =>
        var n := Run(cls, s, i);
        if n < min then None
        else if greedy then Longest(p[1..], s, i, min, n, caps)
        else Lazy(p[1..], s, i, min, n, caps)
      case Open(g) => MatchSeq(p[1..], s, i, caps[2 * g := i])
      case Close(g) => MatchSeq(p[1..], s, i, caps[2 * g + 1 := i])
      case AltLit(opts, orEnd) => Options(p[1..], s, i, opts, orEnd, orEnd, opts, caps)
  }

  /** A greedy repetition: the rest of the pattern after `n`, `n - 1`, ..., `min`
      characters of the run. */
  function Longest(rest: Pattern, s: string, i: nat, min: nat, n: nat, caps: Caps): (r: Option<Hit>)
    requires min <= n && i + n <= |s| && Bounded(caps, |s|)
    ensures r.Some? ==> i + min + MinLen(rest) <= r.value.end <= |s| && Bounded(r.value.caps, |s|)
    decreases |rest|, 1, n
  {
    match MatchSeq(rest, s, i + n, caps)
    case Some(h) => Some(h)
    case None => if n == min then None else Longest(rest, s, i, min, n - 1, caps)
  }

  /** A lazy repetition: the rest of the pattern after `n`, `n + 1`, ..., `max`
      characters of the run. */
  function Lazy(rest: Pattern, s: string, i: nat, n: nat, max: nat, caps: Caps): (r: Option<Hit>)
    requires n <= max && i + max <= |s| && Bounded(caps, |s|)
    ensures r.Some? ==> i + n + MinLen(rest) <= r.value.end <= |s| && Bounded(r.value.caps, |s|)
    decreases |rest|, 1, max - n
  {
    match MatchSeq(rest, s, i + n, caps)
    case Some(h) => Some(h)
    case None => if n == max then None else Lazy(rest, s, i, n + 1, max, caps)
  }

  /** An alternation of literals: the options in order, then `$` if allowed.
      `all` and `orEnd0` are the whole alternation, for the length bound. */
  function Options(rest: Pattern, s: string, i: nat, opts: seq<string>, orEnd: bool,
                   orEnd0: bool, all: seq<string>, caps: Caps): (r: Option<Hit>)
    requires i <= |s| && Bounded(caps, |s|)
    requires orEnd ==> orEnd0
    requires |opts| <= |all| && opts == all[|all| - |opts|..]
    ensures r.Some? ==> i + AtomMinLen(AltLit(all, orEnd0)) + MinLen(rest) <= r.value.end <= |s|
    ensures r.Some? ==> Bounded(r.value.caps, |s|)
    decreases |rest|, 1, |opts|
  {
    if opts == [] then
      if orEnd && AtEnd(s, i) then MatchSeq(rest, s, i, caps) else None
    else
      var o := opts[0];
      assert o == all[|all| - |opts|];
      var r := if At(s, o, i) then MatchSeq(rest, s, i + |o|, caps) else None;
      if r.Some? then
        ShortestBelow(all, |all| - |opts|);
        r
      else Options(rest, s, i, opts[1..], orEnd, orEnd0, all, caps)
  }

  /** The regex matched at `i`: the first top-level alternative that matches there. */
  function MatchAt(re: Regex, s: string, i: nat): (r: Option<Match>)
    requires i <= |s|
    ensures r.Some? ==> r.value.start == i <= r.value.end <= |s| && Bounded(r.value.caps, |s|)
    ensures r.Some? && NonEmpty(re) ==> r.value.end > i
  {
    Branches(re.branches, s, i)
  }

  function Branches(bs: seq<Pattern>, s: string, i: nat): (r: Option<Match>)
    requires i <= |s|
    ensures r.Some? ==> r.value.start == i <= r.value.end <= |s| && Bounded(r.value.caps, |s|)
    ensures r.Some? && (forall k :: 0 <= k < |bs| ==> MinLen(bs[k]) >= 1) ==> r.value.end > i
  {
    if bs == [] then None
    else
      match MatchSeq(bs[0], s, i, map[])
      case Some(h) => Some(Match(i, h.end, h.caps))
      case None =>
        assert forall k :: 0 <= k < |bs[1..]| ==> bs[1..][k] == bs[k + 1];
        Branches(bs[1..], s, i)
  }

  /** Python's `re.search` from position `k` on: the match at the leftmost start
      position where the regex matches. */
  function SearchFrom(re: Regex, s: string, k: nat): (r: Option<Match>)
    requires k <= |s|
    ensures r.Some? ==> k <= r.value.start <= r.value.end <= |s| && MatchAt(re, s, r.value.start) == r
    ensures r.Some? ==> forall j :: k <= j < r.value.start ==> MatchAt(re, s, j).None?
    ensures r.None? ==> forall j :: k <= j <= |s| ==> MatchAt(re, s, j).None?
    decreases |s| - k
  {
    var m := MatchAt(re, s, k);
    if m.Some? then m
    else if k == |s| then None
    else SearchFrom(re, s, k + 1)
  }

  function Search(re: Regex, s: string): (r: Option<Match>)
    ensures r.Some? ==> r.value.start <= r.value.end <= |s| && MatchAt(re, s, r.value.start) == r
    ensures r.Some? ==> forall j :: 0 <= j < r.value.start ==> MatchAt(re, s, j).None?
    ensures r.None? ==> forall j :: 0 <= j <= |s| ==> MatchAt(re, s, j).None?
  {
    SearchFrom(re, s, 0)
  }

  /** The text of capture group `g` of a match. */
  function Group(s: string, m: Match, g: nat): string {
    if 2 * g in m.caps && 2 * g + 1 in m.caps && m.caps[2 * g] <= m.caps[2 * g + 1] <= |s|
    then s[m.caps[2 * g]..m.caps[2 * g + 1]]
    else []
  }

  /** Every alternative consumes at least one character: the patterns given to
      `re.sub` and `re.split` in the source. */
  predicate NonEmpty(re: Regex) {
    forall k :: 0 <= k < |re.branches| ==> MinLen(re.branches[k]) >= 1
  }

  /** Python's `re.sub(pattern, repl, s[k..])` for a pattern that cannot match the
      empty string: every leftmost non-overlapping match is replaced by `repl`. */
  function SubFrom(re: Regex, s: string, repl: string, k: nat): string
    requires k <= |s| && NonEmpty(re)
    decreases |s| - k
  {
    match SearchFrom(re, s, k)
    case None => s[k..]
    case Some(m) =>
      s[k..m.start] + repl + SubFrom(re, s, repl, m.end)
  }

  function Sub(re: Regex, s: string, repl: string): string
    requires NonEmpty(re)
  {
    SubFrom(re, s, repl, 0)
  }

  /** Python's `re.split(pattern, s[k..])` for a pattern without groups that cannot
      match the empty string, as the spans of the pieces. Piece `from` is open
      and the next separator is searched for from `k`. */
  function SplitFrom(re: Regex, s: string, k: nat): (spans: seq<(nat, nat)>)
    requires k <= |s| && NonEmpty(re)
    ensures |spans| >= 1 && spans[0].0 == k && spans[|spans| - 1].1 == |s|
    ensures forall n :: 0 <= n < |spans| ==> spans[n].0 <= spans[n].1 <= |s|
    ensures forall n :: 0 <= n < |spans| - 1 ==> spans[n].1 < spans[n + 1].0
    ensures forall n, j :: 0 <= n < |spans| && spans[n].0 <= j < spans[n].1 ==> MatchAt(re, s, j).None?
    decreases |s| - k
  {
    match SearchFrom(re, s, k)
    case None => [(k, |s|)]
    case Some(m) =>
      [(k, m.start)] + SplitFrom(re, s, m.end)
  }

  /** The pieces of `re.split(pattern, s)`. */
  function ReSplit(re: Regex, s: string): (pieces: seq<string>)
    requires NonEmpty(re)
    ensures |pieces| >= 1
  {
    var spans := SplitFrom(re, s, 0);
    seq(|spans|, n requires 0 <= n < |spans| => s[spans[n].0..spans[n].1])
  }
}
