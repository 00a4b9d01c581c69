/**
 * What a capture group holds. When group `g` of a pattern is one repetition of a
 * class, `(c+)` or `(c*?)`, every character the group captures belongs to the
 * class, and the group is at least as long as the repetition's minimum, whatever
 * path the backtracking took to the match.
 */
module Captures {
  import opened Wrappers
  import opened Text
  import opened Regex

  /** Group `g` of `p` is the atoms `k`, `k + 1`, `k + 2`: `(`, a repetition of
      `cls` with minimum `min`, `)`; the pattern opens and closes `g` nowhere else. */
  predicate Wraps(p: Pattern, g: nat, k: nat, cls: Class, min: nat) {
    k + 2 < |p| && p[k] == Open(g) && p[k + 1].Rep? && p[k + 1].cls == cls &&
    p[k + 1].min == min && p[k + 2] == Close(g) &&
    (forall m :: 0 <= m < |p| && p[m] == Open(g) ==> m == k) &&
    (forall m :: 0 <= m < |p| && p[m] == Close(g) ==> m == k + 2)
  }

  /** The captures hold a span of `g` of at least `min` characters, all in `cls`. */
  predicate Spanned(s: string, caps: Caps, g: nat, cls: Class, min: nat) {
    2 * g in caps && 2 * g + 1 in caps && caps[2 * g] + min <= caps[2 * g + 1] <= |s| &&
    forall x :: caps[2 * g] <= x < caps[2 * g + 1] ==> InClass(cls, s[x])
  }

  /** What the captures hold for `g` when the matcher stands before atom `m`, at `i`. */
  predicate Stage(p: Pattern, g: nat, k: nat, cls: Class, min: nat, m: nat, s: string, i: nat, caps: Caps) {
    if m <= k then 2 * g !in caps && 2 * g + 1 !in caps
    else if m == k + 1 then 2 * g in caps && caps[2 * g] == i && 2 * g + 1 !in caps
    else if m == k + 2 then
      2 * g in caps && caps[2 * g] + min <= i <= |s| && 2 * g + 1 !in caps &&
      forall x :: caps[2 * g] <= x < i ==> InClass(cls, s[x])
    else Spanned(s, caps, g, cls, min)
  }

  /** A greedy repetition's hit is the rest's hit after some run length. */
  lemma {:induction false} LongestFrom(rest: Pattern, s: string, i: nat, min: nat, n: nat, caps: Caps) returns (x: nat)
    requires min <= n && i + n <= |s| && Bounded(caps, |s|)
    requires Longest(rest, s, i, min, n, caps).Some?
    ensures i + min <= x <= i + n
    ensures MatchSeq(rest, s, x, caps) == Longest(rest, s, i, min, n, caps)
    decreases n
  {
    if MatchSeq(rest, s, i + n, caps).Some? {
      x := i + n;
    } else {
      x := LongestFrom(rest, s, i, min, n - 1, caps);
    }
  }

  /** A lazy repetition's hit is the rest's hit after some run length. */
  lemma {:induction false} LazyFrom(rest: Pattern, s: string, i: nat, n: nat, max: nat, caps: Caps) returns (x: nat)
    requires n <= max && i + max <= |s| && Bounded(caps, |s|)
    requires Lazy(rest, s, i, n, max, caps).Some?
    ensures i + n <= x <= i + max
    ensures MatchSeq(rest, s, x, caps) == Lazy(rest, s, i, n, max, caps)
    decreases max - n
  {
    if MatchSeq(rest, s, i + n, caps).Some? {
      x := i + n;
    } else {
      x := LazyFrom(rest, s, i, n + 1, max, caps);
    }
  }

  /** An alternation's hit is the rest's hit after one of the options or at `$`. */
  lemma {:induction false} OptionsFrom(rest: Pattern, s: string, i: nat, opts: seq<string>, orEnd: bool,
                                       orEnd0: bool, all: seq<string>, caps: Caps) returns (x: nat)
    requires i <= |s| && Bounded(caps, |s|)
    requires orEnd ==> orEnd0
    requires |opts| <= |all| && opts == all[|all| - |opts|..]
    requires Options(rest, s, i, opts, orEnd, orEnd0, all, caps).Some?
    ensures i <= x <= |s|
    ensures MatchSeq(rest, s, x, caps) == Options(rest, s, i, opts, orEnd, orEnd0, all, caps)
    decreases |opts|
  {
    if opts == [] {
      x := i;
    } else if At(s, opts[0], i) && MatchSeq(rest, s, i + |opts[0]|, caps).Some? {
      x := i + |opts[0]|;
    } else {
      assert opts[1..] == all[|all| - |opts[1..]|..];
      x := OptionsFrom(rest, s, i, opts[1..], orEnd, orEnd0, all, caps);
    }
  }

  /** One step of the matcher: the hit of `p` is the hit of its tail, from where
      the first atom left the matcher and with the captures it recorded. */
  lemma Step(p: Pattern, s: string, i: nat, caps: Caps) returns (x: nat, caps2: Caps)
    requires p != [] && i <= |s| && Bounded(caps, |s|)
    requires MatchSeq(p, s, i, caps).Some?
    ensures i <= x <= |s| && Bounded(caps2, |s|)
    ensures MatchSeq(p[1..], s, x, caps2) == MatchSeq(p, s, i, caps)
    ensures !p[0].Open? && !p[0].Close? ==> caps2 == caps
    ensures p[0].Open? ==> x == i && caps2 == caps[2 * p[0].group := i]
    ensures p[0].Close? ==> x == i && caps2 == caps[2 * p[0].group + 1 := i]
    ensures p[0].Rep? ==> i + p[0].min <= x <= i + Run(p[0].cls, s, i)
  {
    caps2 := caps;
    match p[0]
    case Lit(t) =>
      x := i + |t|;
    case One(c) =>
      x := i + 1;
    case Rep(c, lo, greedy) =>
      var n := Run(c, s, i);
      if greedy {
        x := LongestFrom(p[1..], s, i, lo, n, caps);
      } else {
        x := LazyFrom(p[1..], s, i, lo, n, caps);
      }
    case Open(h) =>
      x, caps2 := i, caps[2 * h := i];
    case Close(h) =>
      x, caps2 := i, caps[2 * h + 1 := i];
    case AltLit(opts, orEnd) =>
      assert opts == opts[|opts| - |opts|..];
      x := OptionsFrom(p[1..], s, i, opts, orEnd, orEnd, opts, caps);
  }

  /** The stage after atom `m`, from the stage before it. */
  lemma StageStep(p: Pattern, g: nat, k: nat, cls: Class, min: nat, m: nat,
                  s: string, i: nat, caps: Caps, x: nat, caps2: Caps)
    requires Wraps(p, g, k, cls, min) && m < |p| && i <= x <= |s|
    requires Stage(p, g, k, cls, min, m, s, i, caps)
    requires !p[m].Open? && !p[m].Close? ==> caps2 == caps
    requires p[m].Open? ==> x == i && caps2 == caps[2 * p[m].group := i]
    requires p[m].Close? ==> x == i && caps2 == caps[2 * p[m].group + 1 := i]
    requires p[m].Rep? ==> i + p[m].min <= x <= i + Run(p[m].cls, s, i)
    ensures Stage(p, g, k, cls, min, m + 1, s, x, caps2)
  {
    if p[m].Rep? {
      RunBounds(p[m].cls, s, i);
    }
    if p[m].Open? && m != k {
      var h := p[m].group;
      assert h != g;
      assert 2 * h != 2 * g && 2 * h != 2 * g + 1;
    } else if p[m].Close? && m != k + 2 {
      var h := p[m].group;
      assert h != g;
      assert 2 * h + 1 != 2 * g && 2 * h + 1 != 2 * g + 1;
    }
  }

  /** Whatever path the matcher takes from atom `m`, its hit holds a span of `g`. */
  lemma {:induction false} CaptureSpan(p: Pattern, g: nat, k: nat, cls: Class, min: nat, m: nat,
                                       s: string, i: nat, caps: Caps)
    requires Wraps(p, g, k, cls, min) && m <= |p| && i <= |s| && Bounded(caps, |s|)
    requires Stage(p, g, k, cls, min, m, s, i, caps)
    requires MatchSeq(p[m..], s, i, caps).Some?
    ensures Spanned(s, MatchSeq(p[m..], s, i, caps).value.caps, g, cls, min)
    decreases |p| - m
  {
    if m < |p| {
      var q := p[m..];
      assert q[0] == p[m] && q[1..] == p[m + 1..];
      var x, caps2 := Step(q, s, i, caps);
      StageStep(p, g, k, cls, min, m, s, i, caps, x, caps2);
      CaptureSpan(p, g, k, cls, min, m + 1, s, x, caps2);
    }
  }

  /** The group of a search's match of a one-branch regex holds at least `min`
      characters, all of the class. */
  lemma GroupIn(p: Pattern, g: nat, k: nat, cls: Class, min: nat, s: string)
    requires Wraps(p, g, k, cls, min)
    requires Search(Regex([p]), s).Some?
    ensures var grp := Group(s, Search(Regex([p]), s).value, g);
      |grp| >= min && forall x :: 0 <= x < |grp| ==> InClass(cls, grp[x])
  {
    var mt := Search(Regex([p]), s).value;
    var bs: seq<Pattern> := [p];
    assert MatchAt(Regex([p]), s, mt.start) == Branches(bs, s, mt.start);
    assert bs[1..] == [];
    var h := MatchSeq(p, s, mt.start, map[]);
    assert h.Some? && mt.caps == h.value.caps;
    assert p[0..] == p;
    CaptureSpan(p, g, k, cls, min, 0, s, mt.start, map[]);
    var grp := Group(s, mt, g);
    assert grp == s[mt.caps[2 * g]..mt.caps[2 * g + 1]];
    assert forall x :: 0 <= x < |grp| ==> grp[x] == s[mt.caps[2 * g] + x];
  }
}
