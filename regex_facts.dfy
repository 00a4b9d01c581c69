/**
 * What the matcher computes for the shapes of pattern the bots use, stated
 * without the matcher: which repetition length wins, where a lazy group ends,
 * and what `re.sub` and `re.split` leave behind.
 */
module RegexFacts {
  import opened Wrappers
  import opened Text
  import opened Regex

  /** A lazy repetition settles on the shortest length after which the rest matches. */
  lemma {:induction false} LazyFirst(rest: Pattern, s: string, i: nat, n: nat, max: nat, caps: Caps, k: nat)
    requires n <= k <= max && i + max <= |s| && Bounded(caps, |s|)
    requires MatchSeq(rest, s, i + k, caps).Some?
    requires forall x :: i + n <= x < i + k ==> MatchSeq(rest, s, x, caps).None?
    ensures Lazy(rest, s, i, n, max, caps) == MatchSeq(rest, s, i + k, caps)
    decreases k - n
  {
    if n < k {
      LazyFirst(rest, s, i, n + 1, max, caps, k);
    }
  }

  /** A lazy repetition fails when the rest matches after no length. */
  lemma {:induction false} LazyNone(rest: Pattern, s: string, i: nat, n: nat, max: nat, caps: Caps)
    requires n <= max && i + max <= |s| && Bounded(caps, |s|)
    requires forall x :: i + n <= x <= i + max ==> MatchSeq(rest, s, x, caps).None?
    ensures Lazy(rest, s, i, n, max, caps).None?
    decreases max - n
  {
    if n < max {
      LazyNone(rest, s, i, n + 1, max, caps);
    }
  }

  /** A greedy repetition settles on the longest length after which the rest matches. */
  lemma {:induction false} LongestFirst(rest: Pattern, s: string, i: nat, min: nat, n: nat, caps: Caps, k: nat)
    requires min <= k <= n && i + n <= |s| && Bounded(caps, |s|)
    requires MatchSeq(rest, s, i + k, caps).Some?
    requires forall x :: i + k < x <= i + n ==> MatchSeq(rest, s, x, caps).None?
    ensures Longest(rest, s, i, min, n, caps) == MatchSeq(rest, s, i + k, caps)
    decreases n - k
  {
    if k < n {
      LongestFirst(rest, s, i, min, n - 1, caps, k);
    }
  }

  /** A greedy repetition fails when the rest matches after no length. */
  lemma {:induction false} LongestNone(rest: Pattern, s: string, i: nat, min: nat, n: nat, caps: Caps)
    requires min <= n && i + n <= |s| && Bounded(caps, |s|)
    requires forall x :: i + min <= x <= i + n ==> MatchSeq(rest, s, x, caps).None?
    ensures Longest(rest, s, i, min, n, caps).None?
    decreases n - min
  {
    if min < n {
      LongestNone(rest, s, i, min, n - 1, caps);
    }
  }

  /** The captures of a match whose group 1 runs from `x` to `j`. */
  function Group1(x: nat, j: nat): Caps {
    map[2 := x, 3 := j]
  }
  /** Group 1 of a match whose captures are `Group1(x, j)`. */
  lemma Group1Slice(s: string, start: nat, stop: nat, x: nat, j: nat)
    requires x <= j <= |s|
    ensures Group(s, Match(start, stop, Group1(x, j)), 1) == s[x..j]
  {
  }


  /** `(c{min,}?)b` as group `g`: the group runs from `p` to the first `b` at least
      `min` characters on, provided every character before it is of class `c`. */
  function LazyGroup(g: nat, cls: Class, min: nat, b: string): Pattern {
    [Open(g), Rep(cls, min, false), Close(g), Lit(b)]
  }

  function LazyGroupEnd(cls: Class, min: nat, b: string, s: string, p: nat): Option<nat>
    requires p <= |s|
  {
    if p + min > |s| then None
    else match FindFrom(s, b, p + min)
      case None => None
      case Some(j) => if j - p <= Run(cls, s, p) then Some(j) else None
  }

  lemma CloseThenLit(g: nat, b: string, s: string, x: nat, caps: Caps)
    requires x <= |s| && Bounded(caps, |s|)
    ensures MatchSeq([Close(g), Lit(b)], s, x, caps) ==
      (if At(s, b, x) then Some(Hit(x + |b|, caps[2 * g + 1 := x])) else None)
  {
    var caps2 := caps[2 * g + 1 := x];
    assert [Close(g), Lit(b)][1..] == [Lit(b)];
    assert MatchSeq([Close(g), Lit(b)], s, x, caps) == MatchSeq([Lit(b)], s, x, caps2);
    if At(s, b, x) {
      assert [Lit(b)][1..] == [];
      assert MatchSeq([Lit(b)], s, x, caps2) == MatchSeq([], s, x + |b|, caps2);
    }
  }

  /** `(c{min,}?)b` as group `g` from `p`, with `e` the end that `LazyGroupEnd` finds. */
  lemma LazyGroupHit(g: nat, cls: Class, min: nat, b: string, s: string, p: nat, caps: Caps, e: Option<nat>)
    requires p <= |s| && Bounded(caps, |s|) && e == LazyGroupEnd(cls, min, b, s, p)
    ensures MatchSeq(LazyGroup(g, cls, min, b), s, p, caps) == LazyHitOf(e, |b|, caps, g, p)
  {
    var caps1 := caps[2 * g := p];
    var tail := [Close(g), Lit(b)];
    assert LazyGroup(g, cls, min, b)[1..] == [Rep(cls, min, false)] + tail;
    assert MatchSeq(LazyGroup(g, cls, min, b), s, p, caps) == MatchSeq([Rep(cls, min, false)] + tail, s, p, caps1);
    LazyThenClose(g, cls, min, b, s, p, caps1, e);
  }

  /** The hit of group `g` from `p`, ending at `e` and `bl` characters after it. */
  function LazyHitOf(e: Option<nat>, bl: nat, caps: Caps, g: nat, p: nat): Option<Hit> {
    ClosedHit(e, bl, caps[2 * g := p], g)
  }

  /** The hit that closes group `g` at the end `e`, `bl` characters before it ends. */
  function ClosedHit(e: Option<nat>, bl: nat, caps: Caps, g: nat): Option<Hit> {
    match e
    case None => None
    case Some(j) => Some(Hit(j + bl, caps[2 * g + 1 := j]))
  }

  /** `c{min,}?` followed by the end of group `g` and `b`: the first `b` at least
      `min` characters on, provided every character before it is of class `c`. */
  lemma LazyThenClose(g: nat, cls: Class, min: nat, b: string, s: string, p: nat, caps: Caps, e: Option<nat>)
    requires p <= |s| && Bounded(caps, |s|) && e == LazyGroupEnd(cls, min, b, s, p)
    ensures MatchSeq([Rep(cls, min, false), Close(g), Lit(b)], s, p, caps) ==
      ClosedHit(e, |b|, caps, g)
  {
    var q := [Rep(cls, min, false), Close(g), Lit(b)];
    var tail := [Close(g), Lit(b)];
    assert q[0..] == q && q[1..] == tail;
    LazyStep(q, 0, s, p, caps);
    forall x | p <= x <= |s|
      ensures MatchSeq(tail, s, x, caps) ==
        (if At(s, b, x) then Some(Hit(x + |b|, caps[2 * g + 1 := x])) else None)
    {
      CloseThenLit(g, b, s, x, caps);
    }
    assert ClosesAt(tail, g, b, s, p, caps);
    LazyUntilLit(tail, g, cls, min, b, s, p, caps, Run(cls, s, p), e);
  }

  /** One step of a pattern that stands at a lazy repetition. */
  lemma LazyStep(p: Pattern, k: nat, s: string, y: nat, c: Caps)
    requires k < |p| && p[k].Rep? && !p[k].greedy && y <= |s| && Bounded(c, |s|)
    ensures MatchSeq(p[k..], s, y, c) ==
      if Run(p[k].cls, s, y) < p[k].min then None
      else Lazy(p[k + 1..], s, y, p[k].min, Run(p[k].cls, s, y), c)
  {
    assert p[k..][0] == p[k] && p[k..][1..] == p[k + 1..];
  }

  /** The identity on positions, used only as the trigger of `ClosesAt`. With
      `MatchSeq(t, s, x, caps)` as its trigger, that quantifier would be
      instantiated at every `MatchSeq` term the solver meets while unfolding the
      matcher; with `Probe(x)` it is instantiated only where a proof writes
      `Probe(x)` for the position it needs. */
  function Probe(x: nat): nat { x }

  /** A rest that matches exactly where `b` stands, closing group `g` there. */
  predicate ClosesAt(t: Pattern, g: nat, b: string, s: string, p: nat, caps: Caps)
    requires p <= |s| && Bounded(caps, |s|)
  {
    forall x {:trigger Probe(x)} :: p <= x <= |s| ==>
      MatchSeq(t, s, x, caps) == (if At(s, b, x) then Some(Hit(x + |b|, caps[2 * g + 1 := x])) else None)
  }

  /** A lazy repetition of `c` followed by such a rest: the first `b` at least
      `min` characters on, within the run of `c`. */
  lemma LazyUntilLit(t: Pattern, g: nat, cls: Class, min: nat, b: string, s: string, p: nat, caps: Caps,
                      n: nat, e: Option<nat>)
    requires p <= |s| && Bounded(caps, |s|) && ClosesAt(t, g, b, s, p, caps)
    requires n == Run(cls, s, p) && e == LazyGroupEnd(cls, min, b, s, p)
    ensures p + n <= |s|
    ensures (if n < min then None else Lazy(t, s, p, min, n, caps)) ==
      ClosedHit(e, |b|, caps, g)
  {
    if n < min {
      LazyEndShort(cls, min, b, s, p, n);
    } else {
      var f := FindFrom(s, b, p + min);
      if f.Some? && f.value - p <= n {
        LazyUntilFound(t, g, cls, min, b, s, p, caps, n, e, f.value - p);
      } else {
        LazyUntilMissing(t, g, cls, min, b, s, p, caps, n, e);
      }
    }
  }

  /** `LazyUntilLit` when a `b` stands within the run. */
  lemma LazyUntilFound(t: Pattern, g: nat, cls: Class, min: nat, b: string, s: string, p: nat, caps: Caps,
                       n: nat, e: Option<nat>, k: nat)
    requires p <= |s| && Bounded(caps, |s|) && ClosesAt(t, g, b, s, p, caps)
    requires n == Run(cls, s, p) && e == LazyGroupEnd(cls, min, b, s, p)
    requires min <= k <= n && FindFrom(s, b, p + min) == Some(p + k)
    ensures Lazy(t, s, p, min, n, caps) == ClosedHit(e, |b|, caps, g)
  {
    LazyFound(t, g, cls, min, b, s, p, caps, n, k);
  }

  /** `LazyUntilLit` when no `b` stands within the run. */
  lemma LazyUntilMissing(t: Pattern, g: nat, cls: Class, min: nat, b: string, s: string, p: nat, caps: Caps,
                         n: nat, e: Option<nat>)
    requires p <= |s| && Bounded(caps, |s|) && ClosesAt(t, g, b, s, p, caps)
    requires n == Run(cls, s, p) && e == LazyGroupEnd(cls, min, b, s, p) && min <= n
    requires match FindFrom(s, b, p + min) case None => true case Some(j) => j - p > n
    ensures Lazy(t, s, p, min, n, caps) == ClosedHit(e, |b|, caps, g)
  {
    LazyEndMissing(cls, min, b, s, p, n);
    LazyLitMissing(t, g, b, s, p, min, n, caps);
  }

  /** The lazy repetition stops at the first `b`, which is also where the group ends. */
  lemma LazyFound(t: Pattern, g: nat, cls: Class, min: nat, b: string, s: string, p: nat, caps: Caps, n: nat, k: nat)
    requires min <= k <= n && p + n <= |s| && Bounded(caps, |s|) && ClosesAt(t, g, b, s, p, caps)
    requires n == Run(cls, s, p) && FindFrom(s, b, p + min) == Some(p + k)
    ensures Lazy(t, s, p, min, n, caps) == Some(Hit(p + k + |b|, caps[2 * g + 1 := p + k]))
    ensures LazyGroupEnd(cls, min, b, s, p) == Some(p + k)
  {
    LazyEndFound(cls, min, b, s, p, n, k);
    LazyHitAt(t, g, b, s, p, min, n, caps, k);
  }

  lemma LazyHitAt(t: Pattern, g: nat, b: string, s: string, p: nat, min: nat, n: nat, caps: Caps, k: nat)
    requires min <= k <= n && p + n <= |s| && Bounded(caps, |s|) && ClosesAt(t, g, b, s, p, caps)
    requires FindFrom(s, b, p + min) == Some(p + k)
    ensures Lazy(t, s, p, min, n, caps) == Some(Hit(p + k + |b|, caps[2 * g + 1 := p + k]))
  {
    var h := MatchSeq(t, s, p + k, caps);
    ClosesHit(t, g, b, s, p, caps, p + k);
    assert h == Some(Hit(p + k + |b|, caps[2 * g + 1 := p + k]));
    ClosesBefore(t, g, b, s, p, caps, p + min, p + k);
    LazyFirst(t, s, p, min, n, caps, k);
    assert Lazy(t, s, p, min, n, caps) == h;
  }

  lemma LazyEndShort(cls: Class, min: nat, b: string, s: string, p: nat, n: nat)
    requires p <= |s| && n == Run(cls, s, p) && n < min
    ensures LazyGroupEnd(cls, min, b, s, p) == None
  {
  }

  lemma LazyEndFound(cls: Class, min: nat, b: string, s: string, p: nat, n: nat, k: nat)
    requires p + n <= |s| && n == Run(cls, s, p) && min <= k <= n
    requires FindFrom(s, b, p + min) == Some(p + k)
    ensures LazyGroupEnd(cls, min, b, s, p) == Some(p + k)
  {
  }

  lemma LazyEndMissing(cls: Class, min: nat, b: string, s: string, p: nat, n: nat)
    requires p + n <= |s| && n == Run(cls, s, p) && min <= n
    requires match FindFrom(s, b, p + min) case None => true case Some(j) => j - p > n
    ensures LazyGroupEnd(cls, min, b, s, p) == None
  {
  }

  /** Where `b` stands, such a rest closes the group there. */
  lemma ClosesHit(t: Pattern, g: nat, b: string, s: string, p: nat, caps: Caps, x: nat)
    requires p <= x <= |s| && Bounded(caps, |s|) && ClosesAt(t, g, b, s, p, caps) && At(s, b, x)
    ensures MatchSeq(t, s, x, caps) == Some(Hit(x + |b|, caps[2 * g + 1 := x]))
  {
    ClosesAtPoint(t, g, b, s, p, caps, x);
  }

  /** One instance of `ClosesAt`. */
  lemma ClosesAtPoint(t: Pattern, g: nat, b: string, s: string, p: nat, caps: Caps, x: nat)
    requires p <= x <= |s| && Bounded(caps, |s|) && ClosesAt(t, g, b, s, p, caps)
    ensures MatchSeq(t, s, x, caps) == (if At(s, b, x) then Some(Hit(x + |b|, caps[2 * g + 1 := x])) else None)
  {
    assert Probe(x) == x;
  }

  /** Before the first `b` from `a` on, such a rest matches nowhere. */
  lemma ClosesBefore(t: Pattern, g: nat, b: string, s: string, p: nat, caps: Caps, a: nat, j: nat)
    requires p <= a <= j <= |s| && Bounded(caps, |s|) && ClosesAt(t, g, b, s, p, caps)
    requires FindFrom(s, b, a) == Some(j)
    ensures forall x :: a <= x < j ==> MatchSeq(t, s, x, caps).None?
  {
    forall x | a <= x < j ensures MatchSeq(t, s, x, caps).None? {
      FindFromBefore(s, b, a, x);
      ClosesAtPoint(t, g, b, s, p, caps, x);
    }
  }

  lemma LazyLitMissing(t: Pattern, g: nat, b: string, s: string, p: nat, min: nat, n: nat, caps: Caps)
    requires min <= n && p + n <= |s| && Bounded(caps, |s|) && ClosesAt(t, g, b, s, p, caps)
    requires match FindFrom(s, b, p + min) case None => true case Some(j) => j - p > n
    ensures Lazy(t, s, p, min, n, caps) == None
  {
    forall x | p + min <= x <= p + n ensures MatchSeq(t, s, x, caps).None? {
      FindFromBefore(s, b, p + min, x);
      ClosesAtPoint(t, g, b, s, p, caps, x);
    }
    LazyNone(t, s, p, min, n, caps);
  }

  /** `a(c{min,}?)b` with `(...)` as group 1. */
  function Labelled(a: string, cls: Class, min: nat, b: string): Regex {
    Regex([[Lit(a)] + LazyGroup(1, cls, min, b)])
  }

  /** The match of `a(c{min,}?)b` with `a` at `i`, stated without the matcher. */
  function LabelledMatch(a: string, cls: Class, min: nat, b: string, s: string, i: nat): Option<Match>
    requires i + |a| <= |s|
  {
    GroupMatch(i, i + |a|, |b|, LazyGroupEnd(cls, min, b, s, i + |a|))
  }

  /** The match from `i` whose group 1 runs from `x` to the end `e` found for it,
      followed by `bl` more characters. */
  function GroupMatch(i: nat, x: nat, bl: nat, e: Option<nat>): Option<Match> {
    match e
    case None => None
    case Some(j) => Some(Match(i, j + bl, Group1(x, j)))
  }

  lemma LabelledAt(a: string, cls: Class, min: nat, b: string, s: string, i: nat)
    requires i <= |s|
    ensures MatchAt(Labelled(a, cls, min, b), s, i) ==
      if At(s, a, i) then LabelledMatch(a, cls, min, b, s, i) else None
  {
    SingleBranch(Labelled(a, cls, min, b), s, i);
    if At(s, a, i) {
      LabelledHit(a, cls, min, b, s, i);
    } else {
      LitMiss(Labelled(a, cls, min, b).branches[0], s, i, map[]);
    }
  }

  lemma LabelledHit(a: string, cls: Class, min: nat, b: string, s: string, i: nat)
    requires At(s, a, i)
    ensures HitMatch(i, MatchSeq(Labelled(a, cls, min, b).branches[0], s, i, map[])) ==
      LabelledMatch(a, cls, min, b, s, i)
  {
    var p := Labelled(a, cls, min, b).branches[0];
    var t := LazyGroup(1, cls, min, b);
    assert p == [Lit(a)] + t;
    LitThen(a, t, s, i, map[]);
    var h := MatchSeq(p, s, i, map[]);
    assert h == MatchSeq(t, s, i + |a|, map[]);
    LabelledCombine(a, cls, min, b, s, i, h);
  }

  /** Literal text `a` and then `t`, with `a` standing at `i`. */
  lemma LitThen(a: string, t: Pattern, s: string, i: nat, c: Caps)
    requires At(s, a, i) && Bounded(c, |s|)
    ensures MatchSeq([Lit(a)] + t, s, i, c) == MatchSeq(t, s, i + |a|, c)
  {
    assert ([Lit(a)] + t)[0] == Lit(a) && ([Lit(a)] + t)[1..] == t;
  }

  lemma LabelledCombine(a: string, cls: Class, min: nat, b: string, s: string, i: nat, h: Option<Hit>)
    requires i + |a| <= |s| && h == MatchSeq(LazyGroup(1, cls, min, b), s, i + |a|, map[])
    ensures HitMatch(i, h) == LabelledMatch(a, cls, min, b, s, i)
  {
    var e := LazyGroupEnd(cls, min, b, s, i + |a|);
    LazyGroupHit(1, cls, min, b, s, i + |a|, map[], e);
    HitGroup1(i, i + |a|, |b|, 1, e, h);
  }

  /** The hit of group `g` = 1 ending at `j`, as a match starting at `i`. */
  lemma HitGroup1(i: nat, x: nat, bl: nat, g: nat, e: Option<nat>, h: Option<Hit>)
    requires g == 1 && h == LazyHitOf(e, bl, map[], g, x)
    ensures HitMatch(i, h) == GroupMatch(i, x, bl, e)
  {
    match e
    case None =>
    case Some(j) =>
      EmptyGroup1(x, j);
  }

  lemma EmptyGroup1(x: nat, j: nat)
    ensures map[][2 := x][3 := j] == Group1(x, j)
  {
  }

  /** Under `re.DOTALL` the run of `.` reaches the end of the text. */
  lemma RunAnyChar(s: string, p: nat)
    requires p <= |s|
    ensures Run(AnyChar, s, p) == |s| - p
    decreases |s| - p
  {
    if p < |s| {
      RunAnyChar(s, p + 1);
    }
  }

  /** `c+` (greedy) matches exactly where a character of `c` stands, and takes the whole run. */
  function Runs(cls: Class, min: nat): Regex {
    Regex([[Rep(cls, min, true)]])
  }

  lemma RunsAt(cls: Class, min: nat, s: string, i: nat)
    requires i <= |s|
    ensures MatchAt(Runs(cls, min), s, i) ==
      if Run(cls, s, i) < min then None else Some(Match(i, i + Run(cls, s, i), map[]))
  {
    var p := [Rep(cls, min, true)];
    var bs: seq<Pattern> := [p];
    assert Runs(cls, min).branches == bs && bs[1..] == [] && p[1..] == [];
    var n := Run(cls, s, i);
    if n >= min {
      assert MatchSeq(p, s, i, map[]) == Longest([], s, i, min, n, map[]);
      assert Longest([], s, i, min, n, map[]) == MatchSeq([], s, i + n, map[]);
    } else {
      assert Branches(bs, s, i) == Branches(bs[1..], s, i);
    }
  }

  /** Every `cls` character of `r` is a blank and no two `cls` characters stand side by side. */
  predicate Squeezed(cls: Class, r: string) {
    (forall x :: 0 <= x < |r| && InClass(cls, r[x]) ==> r[x] == ' ') &&
    (forall x :: 0 <= x < |r| - 1 ==> !(InClass(cls, r[x]) && InClass(cls, r[x + 1])))
  }

  /** The characters of `s` outside `cls`, in order. */
  function Outside(cls: Class, s: string): string {
    if s == [] then [] else (if InClass(cls, s[0]) then [] else [s[0]]) + Outside(cls, s[1..])
  }

  lemma {:induction false} OutsideConcat(cls: Class, a: string, b: string)
    ensures Outside(cls, a + b) == Outside(cls, a) + Outside(cls, b)
  {
    if a == [] {
      assert a + b == b;
    } else {
      assert (a + b)[0] == a[0] && (a + b)[1..] == a[1..] + b;
      OutsideConcat(cls, a[1..], b);
    }
  }

  lemma {:induction false} OutsideNone(cls: Class, s: string)
    requires forall x :: 0 <= x < |s| ==> !InClass(cls, s[x])
    ensures Outside(cls, s) == s
  {
    if s != [] {
      OutsideNone(cls, s[1..]);
    }
  }

  lemma {:induction false} OutsideAll(cls: Class, s: string)
    requires forall x :: 0 <= x < |s| ==> InClass(cls, s[x])
    ensures Outside(cls, s) == []
  {
    if s != [] {
      OutsideAll(cls, s[1..]);
    }
  }

  lemma {:induction false} OutsideHas(cls: Class, r: string, x: nat)
    requires x < |r| && !InClass(cls, r[x])
    ensures r[x] in Outside(cls, r)
  {
    if x > 0 {
      OutsideHas(cls, r[1..], x - 1);
      assert r[1..][x - 1] == r[x];
    }
  }

  lemma {:induction false} OutsideFrom(cls: Class, s: string, c: char)
    requires c in Outside(cls, s)
    ensures c in s
  {
    if s != [] && !(!InClass(cls, s[0]) && c == s[0]) {
      OutsideFrom(cls, s[1..], c);
    }
  }

  lemma SqueezedConcat(cls: Class, a: string, b: string)
    requires Squeezed(cls, a) && Squeezed(cls, b)
    requires a != [] && b != [] ==> !(InClass(cls, a[|a| - 1]) && InClass(cls, b[0]))
    ensures Squeezed(cls, a + b)
  {
    var r := a + b;
    forall x | 0 <= x < |r| - 1
      ensures !(InClass(cls, r[x]) && InClass(cls, r[x + 1]))
    {
      if x + 1 < |a| {
        assert r[x] == a[x] && r[x + 1] == a[x + 1];
      } else if x >= |a| {
        assert r[x] == b[x - |a|] && r[x + 1] == b[x - |a| + 1];
      }
    }
  }

  /** One replaced run between an untouched head and an already squeezed rest. */
  lemma SqueezedPiece(cls: Class, head: string, rest: string)
    requires InClass(cls, ' ') && Squeezed(cls, rest)
    requires forall x :: 0 <= x < |head| ==> !InClass(cls, head[x])
    requires rest != [] ==> !InClass(cls, rest[0])
    ensures Squeezed(cls, head + " " + rest)
  {
    assert Squeezed(cls, head);
    SqueezedConcat(cls, head, " ");
    SqueezedConcat(cls, head + " ", rest);
  }

  lemma OutsidePiece(cls: Class, s: string, k: nat, j: nat, e: nat, rest: string)
    requires k <= j <= e <= |s| && InClass(cls, ' ')
    requires forall x :: k <= x < j ==> !InClass(cls, s[x])
    requires forall x :: j <= x < e ==> InClass(cls, s[x])
    requires Outside(cls, rest) == Outside(cls, s[e..])
    ensures Outside(cls, s[k..j] + " " + rest) == Outside(cls, s[k..])
  {
    var head, run, tail := s[k..j], s[j..e], s[e..];
    assert forall x :: 0 <= x < |head| ==> head[x] == s[k + x];
    assert forall x :: 0 <= x < |run| ==> run[x] == s[j + x];
    assert s[k..] == head + (run + tail);
    OutsideReplace(cls, head, run, tail, rest);
  }

  /** A run of `cls` replaced by one blank: what lies outside `cls` is the same. */
  lemma OutsideReplace(cls: Class, head: string, run: string, tail: string, rest: string)
    requires InClass(cls, ' ') && Outside(cls, rest) == Outside(cls, tail)
    requires forall x :: 0 <= x < |head| ==> !InClass(cls, head[x])
    requires forall x :: 0 <= x < |run| ==> InClass(cls, run[x])
    ensures Outside(cls, head + " " + rest) == Outside(cls, head + (run + tail))
  {
    var o := Outside(cls, tail);
    var blank := " ";
    OutsideNone(cls, head);
    OutsideAll(cls, run);
    OutsideAll(cls, blank);
    var x := head + blank;
    OutsideConcat(cls, head, blank);
    assert head + [] == head;
    assert Outside(cls, x) == head;
    OutsideConcat(cls, x, rest);
    assert Outside(cls, x + rest) == head + o;
    var z := run + tail;
    OutsideConcat(cls, run, tail);
    assert [] + o == o;
    assert Outside(cls, z) == o;
    OutsideConcat(cls, head, z);
    assert Outside(cls, head + z) == head + o;
  }

  /** The squeeze of `s[k..]`, character by character: the first character of each
      run of `cls` becomes one blank, the rest of the run goes, and every other
      character stays where it is. `inRun` says that `s[k - 1]` was in a run. */
  function SqueezeFrom(cls: Class, s: string, k: nat, inRun: bool): string
    requires k <= |s|
    decreases |s| - k
  {
    if k == |s| then []
    else if !InClass(cls, s[k]) then [s[k]] + SqueezeFrom(cls, s, k + 1, false)
    else if inRun then SqueezeFrom(cls, s, k + 1, true)
    else " " + SqueezeFrom(cls, s, k + 1, true)
  }

  function SqueezeRef(cls: Class, s: string): string {
    SqueezeFrom(cls, s, 0, false)
  }

  /** Characters outside `cls` are copied. */
  lemma {:induction false} SqueezeFromPlain(cls: Class, s: string, k: nat, j: nat)
    requires k <= j <= |s| && forall x :: k <= x < j ==> !InClass(cls, s[x])
    ensures SqueezeFrom(cls, s, k, false) == s[k..j] + SqueezeFrom(cls, s, j, false)
    decreases j - k
  {
    if k < j {
      SqueezeFromPlain(cls, s, k + 1, j);
      assert s[k..j] == [s[k]] + s[k + 1..j];
    }
  }

  /** The rest of a run that ends at `e` adds nothing. */
  lemma {:induction false} SqueezeFromRun(cls: Class, s: string, x: nat, e: nat)
    requires x <= e <= |s| && forall y :: x <= y < e ==> InClass(cls, s[y])
    requires e < |s| ==> !InClass(cls, s[e])
    ensures SqueezeFrom(cls, s, x, true) == SqueezeFrom(cls, s, e, false)
    decreases e - x
  {
    if x < e {
      SqueezeFromRun(cls, s, x + 1, e);
    }
  }

  /** A plain head, a run, then the rest: the head, one blank, the rest squeezed. */
  lemma SqueezeFromStep(cls: Class, s: string, k: nat, j: nat, e: nat)
    requires k <= j < e <= |s|
    requires forall x :: k <= x < j ==> !InClass(cls, s[x])
    requires forall x :: j <= x < e ==> InClass(cls, s[x])
    requires e < |s| ==> !InClass(cls, s[e])
    ensures SqueezeFrom(cls, s, k, false) == s[k..j] + " " + SqueezeFrom(cls, s, e, false)
  {
    SqueezeFromPlain(cls, s, k, j);
    SqueezeFromRun(cls, s, j + 1, e);
    var rest := SqueezeFrom(cls, s, e, false);
    assert SqueezeFrom(cls, s, j, false) == " " + rest;
    assert s[k..j] + (" " + rest) == s[k..j] + " " + rest;
  }

  /** What one step of the squeeze leaves: the untouched head, one blank for the
      run `s[j..e]`, and the squeezed rest. */
  predicate SqueezeOf(cls: Class, s: string, k: nat, r: string)
    requires k <= |s|
  {
    r == SqueezeFrom(cls, s, k, false) &&
    Squeezed(cls, r) && Outside(cls, r) == Outside(cls, s[k..]) &&
    (r == [] <==> k == |s|) &&
    (k < |s| ==> r[0] == (if InClass(cls, s[k]) then ' ' else s[k])) &&
    (k < |s| ==> r[|r| - 1] == (if InClass(cls, s[|s| - 1]) then ' ' else s[|s| - 1]))
  }

  /** With no character of `cls` from `k` on, the squeeze is the text itself. */
  lemma SqueezeNone(cls: Class, s: string, k: nat)
    requires k <= |s| && forall x :: k <= x < |s| ==> !InClass(cls, s[x])
    ensures SqueezeOf(cls, s, k, s[k..])
  {
    var r := s[k..];
    SqueezeFromPlain(cls, s, k, |s|);
    assert s[k..|s|] == r;
    assert forall x :: 0 <= x < |r| ==> r[x] == s[k + x];
    OutsideNone(cls, r);
  }

  lemma SqueezeStep(cls: Class, s: string, k: nat, j: nat, e: nat, rest: string)
    requires k <= j < e <= |s| && InClass(cls, ' ')
    requires forall x :: k <= x < j ==> !InClass(cls, s[x])
    requires forall x :: j <= x < e ==> InClass(cls, s[x])
    requires e < |s| ==> !InClass(cls, s[e])
    requires SqueezeOf(cls, s, e, rest)
    ensures SqueezeOf(cls, s, k, s[k..j] + " " + rest)
  {
    assert forall x :: 0 <= x < j - k ==> s[k..j][x] == s[k + x];
    SqueezeFromStep(cls, s, k, j, e);
    SqueezedPiece(cls, s[k..j], rest);
    OutsidePiece(cls, s, k, j, e, rest);
  }

  /** `re.sub(c+, " ", s[k..])` is `SqueezeFrom`: runs of `cls` become one blank, and
      nothing outside `cls` is touched. The first and last characters are kept when
      outside `cls`. */
  lemma {:induction false} Squeeze(cls: Class, s: string, k: nat)
    requires k <= |s| && InClass(cls, ' ')
    ensures NonEmpty(Runs(cls, 1))
    ensures SqueezeOf(cls, s, k, SubFrom(Runs(cls, 1), s, " ", k))
    decreases |s| - k
  {
    var re := Runs(cls, 1);
    assert MinLen(re.branches[0]) == 1;
    assert NonEmpty(re);
    match SearchFrom(re, s, k)
    case None =>
      forall x | k <= x < |s| ensures !InClass(cls, s[x]) {
        RunsAt(cls, 1, s, x);
      }
      assert SubFrom(re, s, " ", k) == s[k..];
      SqueezeNone(cls, s, k);
    case Some(m) =>
      var j := m.start;
      RunsAt(cls, 1, s, j);
      RunBounds(cls, s, j);
      forall x | k <= x < j ensures !InClass(cls, s[x]) {
        RunsAt(cls, 1, s, x);
      }
      Squeeze(cls, s, m.end);
      assert SubFrom(re, s, " ", k) == s[k..j] + " " + SubFrom(re, s, " ", m.end);
      SqueezeStep(cls, s, k, j, m.end, SubFrom(re, s, " ", m.end));
  }

  /** The match at `i` made from a hit of a pattern started there. */
  function HitMatch(i: nat, h: Option<Hit>): Option<Match> {
    match h
    case None => None
    case Some(x) => Some(Match(i, x.end, x.caps))
  }

  /** A regex with one alternative matches where that pattern does. */
  lemma SingleBranch(re: Regex, s: string, i: nat)
    requires i <= |s| && |re.branches| == 1
    ensures MatchAt(re, s, i) == HitMatch(i, MatchSeq(re.branches[0], s, i, map[]))
  {
    var bs := re.branches;
    assert MatchAt(re, s, i) == Branches(bs, s, i);
    if MatchSeq(bs[0], s, i, map[]).None? {
      assert bs[1..] == [];
      assert Branches(bs, s, i) == Branches(bs[1..], s, i);
    }
  }

  /** A pattern that starts with literal text misses where that text is not. */
  lemma LitMiss(p: Pattern, s: string, i: nat, caps: Caps)
    requires i <= |s| && Bounded(caps, |s|) && p != [] && p[0].Lit? && !At(s, p[0].text, i)
    ensures MatchSeq(p, s, i, caps).None?
  {
  }

  /** The search returns the match at `i` when no earlier position matches. */
  lemma SearchAt(re: Regex, s: string, i: nat)
    requires i <= |s| && MatchAt(re, s, i).Some?
    requires forall j :: 0 <= j < i ==> MatchAt(re, s, j).None?
    ensures Search(re, s) == MatchAt(re, s, i)
  {
  }

  /** The search from `k` finds the first position from `k` on that matches. */
  lemma SearchFromAt(re: Regex, s: string, k: nat, i: nat)
    requires k <= i <= |s| && MatchAt(re, s, i).Some?
    requires forall j :: k <= j < i ==> MatchAt(re, s, j).None?
    ensures SearchFrom(re, s, k) == MatchAt(re, s, i)
  {
  }

  /** The search fails when no position matches. */
  lemma SearchMiss(re: Regex, s: string)
    requires forall j :: 0 <= j <= |s| ==> MatchAt(re, s, j).None?
    ensures Search(re, s).None?
  {
  }

  /** Under `re.DOTALL`, `(.*?)b` ends at the first `b`. */
  lemma AnyLazyGroupEnd(b: string, s: string, p: nat)
    requires p <= |s|
    ensures LazyGroupEnd(AnyChar, 0, b, s, p) == FindFrom(s, b, p)
  {
    RunAnyChar(s, p);
  }

  /** The match of `a(.*?)b` (under `re.DOTALL`) with `a` at `i`, stated without the matcher. */
  function SectionMatch(a: string, b: string, s: string, i: nat): Option<Match>
    requires i + |a| <= |s|
  {
    match FindFrom(s, b, i + |a|)
    case None => None
    case Some(j) => Some(Match(i, j + |b|, Group1(i + |a|, j)))
  }

  lemma SectionAt(a: string, b: string, s: string, x: nat)
    requires x <= |s|
    ensures MatchAt(Labelled(a, AnyChar, 0, b), s, x) == if At(s, a, x) then SectionMatch(a, b, s, x) else None
  {
    LabelledAt(a, AnyChar, 0, b, s, x);
    if At(s, a, x) {
      AnyLazyGroupEnd(b, s, x + |a|);
    }
  }

  /** With no `b` after the `a` at `i`, no later `a` is closed either. */
  lemma SectionMissAfter(a: string, b: string, s: string, i: nat)
    requires i + |a| <= |s| && FindFrom(s, b, i + |a|).None?
    ensures forall x :: i < x <= |s| ==> MatchAt(Labelled(a, AnyChar, 0, b), s, x).None?
  {
    forall x | i < x <= |s| ensures MatchAt(Labelled(a, AnyChar, 0, b), s, x).None? {
      SectionAt(a, b, s, x);
      if At(s, a, x) {
        FindFromNoneLater(s, b, i + |a|, x + |a|);
      }
    }
  }

  /** `a(.*?)b` under `re.DOTALL` (a section of the trade-block email): the match
      starts at the first `a` and its group runs to the first `b` after that. */
  lemma SectionSearch(a: string, b: string, s: string)
    ensures Search(Labelled(a, AnyChar, 0, b), s) ==
      match Find(s, a)
      case None => None
      case Some(i) => SectionMatch(a, b, s, i)
  {
    var re := Labelled(a, AnyChar, 0, b);
    match Find(s, a)
    case None =>
      forall x | 0 <= x <= |s| ensures MatchAt(re, s, x).None? {
        SectionAt(a, b, s, x);
      }
      SearchMiss(re, s);
    case Some(i) =>
      forall x | 0 <= x < i ensures MatchAt(re, s, x).None? {
        SectionAt(a, b, s, x);
      }
      SectionAt(a, b, s, i);
      if FindFrom(s, b, i + |a|).None? {
        SectionMissAfter(a, b, s, i);
        SearchMiss(re, s);
      } else {
        SearchAt(re, s, i);
      }
  }

  /** Text `a`, then at least `min` characters of `cls`, then `b` at `j`. */
  predicate Between(s: string, a: string, cls: Class, min: nat, b: string, i: nat, j: nat) {
    At(s, a, i) && i + |a| + min <= j && At(s, b, j) &&
    forall x :: i + |a| <= x < j ==> InClass(cls, s[x])
  }

  lemma {:induction false} RunCovers(cls: Class, s: string, p: nat, q: nat)
    requires p <= q <= |s|
    requires forall x :: p <= x < q ==> InClass(cls, s[x])
    ensures Run(cls, s, p) >= q - p
    decreases q - p
  {
    if p < q {
      RunCovers(cls, s, p + 1, q);
    }
  }

  /** `a(c{min,}?)b` matches at `i` exactly when some `b` closes a long enough run of `cls`. */
  lemma LabelledMatchIff(a: string, cls: Class, min: nat, b: string, s: string, i: nat)
    requires i <= |s|
    ensures MatchAt(Labelled(a, cls, min, b), s, i).Some? <==> exists j :: Between(s, a, cls, min, b, i, j)
  {
    LabelledAt(a, cls, min, b, s, i);
    if At(s, a, i) {
      LabelledEndIff(a, cls, min, b, s, i);
    }
  }

  lemma LabelledEndIff(a: string, cls: Class, min: nat, b: string, s: string, i: nat)
    requires At(s, a, i)
    ensures LabelledMatch(a, cls, min, b, s, i).Some? <==> exists j :: Between(s, a, cls, min, b, i, j)
  {
    var e := LazyGroupEnd(cls, min, b, s, i + |a|);
    if e.Some? {
      EndBetween(a, cls, min, b, s, i);
    }
    if j :| Between(s, a, cls, min, b, i, j) {
      ClosedRunEnd(cls, min, b, s, i + |a|, j);
    }
  }

  lemma EndBetween(a: string, cls: Class, min: nat, b: string, s: string, i: nat)
    requires At(s, a, i) && LazyGroupEnd(cls, min, b, s, i + |a|).Some?
    ensures Between(s, a, cls, min, b, i, LazyGroupEnd(cls, min, b, s, i + |a|).value)
  {
    RunBounds(cls, s, i + |a|);
  }

  /** A `b` at `j` that closes a long enough run from `p` is found by the lazy group. */
  lemma ClosedRunEnd(cls: Class, min: nat, b: string, s: string, p: nat, j: nat)
    requires p + min <= j <= |s| && At(s, b, j)
    requires forall x :: p <= x < j ==> InClass(cls, s[x])
    ensures LazyGroupEnd(cls, min, b, s, p).Some?
  {
    RunCovers(cls, s, p, j);
    FindFromAt(s, b, p + min, j);
    var f := FindFrom(s, b, p + min).value;
    assert f - p <= Run(cls, s, p);
  }

  /** What `re.search(a(c{min,}?)b, s)` finds: the leftmost `a` that some `b` closes,
      and the shortest group it allows. */
  lemma LabelledSearch(a: string, cls: Class, min: nat, b: string, s: string)
    ensures Search(Labelled(a, cls, min, b), s).Some? <==>
      exists i, j :: 0 <= i <= |s| && Between(s, a, cls, min, b, i, j)
    ensures match Search(Labelled(a, cls, min, b), s)
      case None => true
      case Some(m) =>
        2 in m.caps && 3 in m.caps && m.caps[2] == m.start + |a| &&
        Between(s, a, cls, min, b, m.start, m.caps[3]) &&
        m.end == m.caps[3] + |b| && Group(s, m, 1) == s[m.caps[2]..m.caps[3]] &&
        (forall j :: m.caps[2] + min <= j < m.caps[3] ==> !At(s, b, j)) &&
        (forall i, j :: 0 <= i < m.start ==> !Between(s, a, cls, min, b, i, j))
  {
    var re := Labelled(a, cls, min, b);
    match Search(re, s)
    case None =>
      forall i, j | 0 <= i <= |s| ensures !Between(s, a, cls, min, b, i, j) {
        LabelledMatchIff(a, cls, min, b, s, i);
      }
    case Some(m) =>
      LabelledAt(a, cls, min, b, s, m.start);
      LabelledFound(a, cls, min, b, s, m.start);
      forall i, j | 0 <= i < m.start ensures !Between(s, a, cls, min, b, i, j) {
        LabelledMatchIff(a, cls, min, b, s, i);
      }
  }

  /** The match with `a` at `i`: group 1 ends at the first `b` far enough past `a`. */
  lemma LabelledFound(a: string, cls: Class, min: nat, b: string, s: string, i: nat)
    requires At(s, a, i) && LabelledMatch(a, cls, min, b, s, i).Some?
    ensures var m := LabelledMatch(a, cls, min, b, s, i).value;
      m.start == i && 2 in m.caps && 3 in m.caps && m.caps[2] == i + |a| &&
      Between(s, a, cls, min, b, i, m.caps[3]) &&
      m.end == m.caps[3] + |b| && Group(s, m, 1) == s[m.caps[2]..m.caps[3]] &&
      forall j :: m.caps[2] + min <= j < m.caps[3] ==> !At(s, b, j)
  {
    var p := i + |a|;
    EndBetween(a, cls, min, b, s, i);
    LazyGroupFound(cls, min, b, s, p);
    var j := LazyGroupEnd(cls, min, b, s, p).value;
    var m := Match(i, j + |b|, Group1(p, j));
    assert LabelledMatch(a, cls, min, b, s, i) == Some(m);
    assert m.caps[2] == p && m.caps[3] == j;
    forall x | p + min <= x < j ensures !At(s, b, x) {
      FindFromBefore(s, b, p + min, x);
    }
    Group1Slice(s, i, j + |b|, p, j);
  }

  /** A lazy group that closes ends at the first `b` past its minimum. */
  lemma LazyGroupFound(cls: Class, min: nat, b: string, s: string, p: nat)
    requires p <= |s| && LazyGroupEnd(cls, min, b, s, p).Some?
    ensures p + min <= |s| && FindFrom(s, b, p + min) == LazyGroupEnd(cls, min, b, s, p)
  {
  }

  /** `a\s*(.*?)b` under `re.DOTALL`: the group starts after the white space that follows `a`. */
  function Anchored(a: string, b: string): Regex {
    Regex([[Lit(a), Rep(Spaces, 0, true), Open(1), Rep(AnyChar, 0, false), Close(1), Lit(b)]])
  }

  /** White space holds no occurrence of a label that starts with a visible character. */
  lemma {:induction false} SkipSpaces(s: string, b: string, p: nat, q: nat)
    requires p <= q <= |s| && b != [] && !IsSpace(b[0])
    requires forall x :: p <= x < q ==> IsSpace(s[x])
    ensures FindFrom(s, b, p) == FindFrom(s, b, q)
    decreases q - p
  {
    if p < q {
      assert p + |b| <= |s| ==> s[p..p + |b|][0] == s[p];
      assert !At(s, b, p);
      SkipSpaces(s, b, p + 1, q);
    }
  }

  /** The match of `a\s*(.*?)b` with `a` at `i`, stated without the matcher. */
  function AnchoredMatch(a: string, b: string, s: string, i: nat): Option<Match>
    requires i + |a| <= |s|
  {
    var p := i + |a|;
    match FindFrom(s, b, p)
    case None => None
    case Some(j) => Some(Match(i, j + |b|, Group1(SpacesEnd(s, p), j)))
  }

  /** The group of that match: from the end of the white space after `a` to `b`. */
  lemma AnchoredMatchGroup(a: string, b: string, s: string, i: nat)
    requires i + |a| <= |s| && b != [] && !IsSpace(b[0])
    ensures var p := i + |a|;
      AnchoredMatch(a, b, s, i).Some? <==> FindFrom(s, b, p).Some?
    ensures var p := i + |a|;
      AnchoredMatch(a, b, s, i).Some? ==>
        SpacesEnd(s, p) <= FindFrom(s, b, p).value &&
        Group(s, AnchoredMatch(a, b, s, i).value, 1) == s[SpacesEnd(s, p)..FindFrom(s, b, p).value]
  {
    var p := i + |a|;
    var q := SpacesEnd(s, p);
    SpacesEndAll(s, p);
    SkipSpaces(s, b, p, q);
    var f := FindFrom(s, b, p);
    if f.Some? {
      var caps := AnchoredMatch(a, b, s, i).value.caps;
      assert caps[2] == q && caps[3] == f.value;
    }
  }

  /** Everything up to `SpacesEnd` is white space. */
  lemma SpacesEndAll(s: string, j: nat)
    requires j <= |s|
    ensures forall x :: j <= x < SpacesEnd(s, j) ==> IsSpace(s[x])
  {
    SpacesEndRun(s, j);
    RunBounds(Spaces, s, j);
  }

  function GroupHit(b: string, s: string, p: nat, x: nat): Option<Hit>
    requires p <= |s|
  {
    match FindFrom(s, b, p)
    case None => None
    case Some(j) => Some(Hit(j + |b|, Group1(x, j)))
  }

  lemma GroupAfterSpaces(b: string, s: string, p: nat, x: nat)
    requires p <= x <= |s| && b != [] && !IsSpace(b[0])
    requires forall y :: p <= y < x ==> IsSpace(s[y])
    ensures MatchSeq(LazyGroup(1, AnyChar, 0, b), s, x, map[]) == GroupHit(b, s, p, x)
  {
    var e := FindFrom(s, b, x);
    AnyLazyGroupEnd(b, s, x);
    LazyGroupHit(1, AnyChar, 0, b, s, x, map[], e);
    SkipSpaces(s, b, p, x);
    LazyHitGroup1(e, |b|, x);
  }

  /** The hit of group 1 from `x`, with the captures written as `Group1`. */
  lemma LazyHitGroup1(e: Option<nat>, bl: nat, x: nat)
    ensures LazyHitOf(e, bl, map[], 1, x) ==
      match e
      case None => None
      case Some(j) => Some(Hit(j + bl, Group1(x, j)))
  {
    match e
    case None =>
    case Some(j) =>
      EmptyGroup1(x, j);
  }

  /** After `a`, the greedy `\s*` gives back nothing: `b` cannot start inside white space. */
  lemma AnchoredTail(b: string, s: string, p: nat)
    requires p <= |s| && b != [] && !IsSpace(b[0])
    ensures Longest(LazyGroup(1, AnyChar, 0, b), s, p, 0, Run(Spaces, s, p), map[]) ==
      GroupHit(b, s, p, p + Run(Spaces, s, p))
  {
    var g := LazyGroup(1, AnyChar, 0, b);
    var n := Run(Spaces, s, p);
    RunBounds(Spaces, s, p);
    forall x | p <= x <= p + n
      ensures MatchSeq(g, s, x, map[]) == GroupHit(b, s, p, x)
    {
      GroupAfterSpaces(b, s, p, x);
    }
    if FindFrom(s, b, p).Some? {
      LongestFirst(g, s, p, 0, n, map[], n);
    } else {
      LongestNone(g, s, p, 0, n, map[]);
    }
  }

  /** Past `a`, the rest of the pattern. */
  lemma AnchoredLit(a: string, b: string, s: string, i: nat)
    requires At(s, a, i)
    ensures MatchSeq(Anchored(a, b).branches[0], s, i, map[]) ==
      MatchSeq([Rep(Spaces, 0, true)] + LazyGroup(1, AnyChar, 0, b), s, i + |a|, map[])
  {
    var pat := Anchored(a, b).branches[0];
    assert pat[1..] == [Rep(Spaces, 0, true)] + LazyGroup(1, AnyChar, 0, b);
  }

  /** `\s*(.*?)b`: the group starts after the white space and ends at the first `b`. */
  lemma SpacesThenGroup(b: string, s: string, p: nat)
    requires p <= |s| && b != [] && !IsSpace(b[0])
    ensures MatchSeq([Rep(Spaces, 0, true)] + LazyGroup(1, AnyChar, 0, b), s, p, map[]) ==
      GroupHit(b, s, p, p + Run(Spaces, s, p))
  {
    var g := LazyGroup(1, AnyChar, 0, b);
    assert ([Rep(Spaces, 0, true)] + g)[1..] == g;
    assert MatchSeq([Rep(Spaces, 0, true)] + g, s, p, map[]) == Longest(g, s, p, 0, Run(Spaces, s, p), map[]);
    AnchoredTail(b, s, p);
  }

  lemma AnchoredAt(a: string, b: string, s: string, i: nat)
    requires i <= |s| && b != [] && !IsSpace(b[0])
    ensures MatchAt(Anchored(a, b), s, i) == if At(s, a, i) then AnchoredMatch(a, b, s, i) else None
  {
    SingleBranch(Anchored(a, b), s, i);
    if At(s, a, i) {
      AnchoredHit(a, b, s, i);
    } else {
      LitMiss(Anchored(a, b).branches[0], s, i, map[]);
    }
  }

  lemma AnchoredHit(a: string, b: string, s: string, i: nat)
    requires At(s, a, i) && b != [] && !IsSpace(b[0])
    ensures HitMatch(i, MatchSeq(Anchored(a, b).branches[0], s, i, map[])) == AnchoredMatch(a, b, s, i)
  {
    AnchoredLit(a, b, s, i);
    AnchoredRest(a, b, s, i);
  }

  /** After `a`: the match with the group after the white space, up to the first `b`. */
  lemma AnchoredRest(a: string, b: string, s: string, i: nat)
    requires i + |a| <= |s| && b != [] && !IsSpace(b[0])
    ensures HitMatch(i, MatchSeq([Rep(Spaces, 0, true)] + LazyGroup(1, AnyChar, 0, b), s, i + |a|, map[])) ==
      AnchoredMatch(a, b, s, i)
  {
    var p := i + |a|;
    SpacesThenGroup(b, s, p);
    var h := MatchSeq([Rep(Spaces, 0, true)] + LazyGroup(1, AnyChar, 0, b), s, p, map[]);
    assert h == GroupHit(b, s, p, p + Run(Spaces, s, p));
    GroupHitMatch(a, b, s, i, p, h);
  }

  lemma GroupHitMatch(a: string, b: string, s: string, i: nat, p: nat, h: Option<Hit>)
    requires p == i + |a| && p <= |s|
    requires h == GroupHit(b, s, p, p + Run(Spaces, s, p))
    ensures HitMatch(i, h) == AnchoredMatch(a, b, s, i)
  {
    SpacesEndRun(s, p);
  }

  /** With no `b` after the `a` at `i`, no later `a` is closed either. */
  lemma AnchoredMissAfter(a: string, b: string, s: string, i: nat)
    requires i + |a| <= |s| && FindFrom(s, b, i + |a|).None? && b != [] && !IsSpace(b[0])
    ensures forall x :: i < x <= |s| ==> MatchAt(Anchored(a, b), s, x).None?
  {
    forall x | i < x <= |s| ensures MatchAt(Anchored(a, b), s, x).None? {
      AnchoredAt(a, b, s, x);
      if At(s, a, x) {
        FindFromNoneLater(s, b, i + |a|, x + |a|);
      }
    }
  }

  /** `a\s*(.*?)b` under `re.DOTALL` (the anchors of a trade email): the first `a`,
      then the first `b` after it, the white space after `a` left out of the group. */
  lemma AnchoredSearch(a: string, b: string, s: string)
    requires b != [] && !IsSpace(b[0])
    ensures Search(Anchored(a, b), s) ==
      match Find(s, a)
      case None => None
      case Some(i) => AnchoredMatch(a, b, s, i)
  {
    var re := Anchored(a, b);
    match Find(s, a)
    case None =>
      forall x | 0 <= x <= |s| ensures MatchAt(re, s, x).None? {
        AnchoredAt(a, b, s, x);
      }
      SearchMiss(re, s);
    case Some(i) =>
      forall x | 0 <= x < i ensures MatchAt(re, s, x).None? {
        AnchoredAt(a, b, s, x);
      }
      AnchoredAt(a, b, s, i);
      if FindFrom(s, b, i + |a|).None? {
        AnchoredMissAfter(a, b, s, i);
        SearchMiss(re, s);
      } else {
        SearchAt(re, s, i);
      }
  }

  /** The first position at or after `p` where `b` stands or `$` matches. */
  function StopAt(s: string, b: string, p: nat): (e: nat)
    requires p <= |s|
    ensures p <= e <= |s| && (At(s, b, e) || AtEnd(s, e))
    ensures forall x :: p <= x < e ==> !At(s, b, x) && !AtEnd(s, x)
    decreases |s| - p
  {
    if At(s, b, p) || AtEnd(s, p) then p else StopAt(s, b, p + 1)
  }

  /** `a(.*?)(?:b|$)` under `re.DOTALL`. */
  function UntilOrEnd(a: string, b: string): Regex {
    Regex([[Lit(a), Open(1), Rep(AnyChar, 0, false), Close(1), AltLit([b], true)]])
  }

  lemma CloseThenLabelOrEnd(b: string, s: string, x: nat, caps: Caps)
    requires x <= |s| && Bounded(caps, |s|)
    ensures MatchSeq([Close(1), AltLit([b], true)], s, x, caps) ==
      if At(s, b, x) then Some(Hit(x + |b|, caps[3 := x]))
      else if AtEnd(s, x) then Some(Hit(x, caps[3 := x]))
      else None
  {
    var p: Pattern := [Close(1), AltLit([b], true)];
    var c := caps[3 := x];
    CloseStep(p, 0, s, x, caps);
    AltStep(p, 1, s, x, c);
    assert p[1].options == [b] && p[2..] == [];
    OptionsOne([], s, x, b, c);
  }

  /** One step of a pattern that stands at the end of a group. */
  lemma CloseStep(p: Pattern, k: nat, s: string, y: nat, c: Caps)
    requires k < |p| && p[k].Close? && y <= |s| && Bounded(c, |s|)
    ensures MatchSeq(p[k..], s, y, c) == MatchSeq(p[k + 1..], s, y, c[2 * p[k].group + 1 := y])
  {
    assert p[k..][0] == p[k] && p[k..][1..] == p[k + 1..];
  }

  /** One step of a pattern that stands at an alternation of literals. */
  lemma AltStep(p: Pattern, k: nat, s: string, y: nat, c: Caps)
    requires k < |p| && p[k].AltLit? && y <= |s| && Bounded(c, |s|)
    ensures MatchSeq(p[k..], s, y, c) ==
      Options(p[k + 1..], s, y, p[k].options, p[k].orEnd, p[k].orEnd, p[k].options, c)
  {
    assert p[k..][0] == p[k] && p[k..][1..] == p[k + 1..];
  }

  /** `(?:b|$)` followed by `rest`: `b` first, then the end. */
  lemma OptionsOne(rest: Pattern, s: string, y: nat, b: string, c: Caps)
    requires y <= |s| && Bounded(c, |s|)
    ensures Options(rest, s, y, [b], true, true, [b], c) ==
      if At(s, b, y) && MatchSeq(rest, s, y + |b|, c).Some? then MatchSeq(rest, s, y + |b|, c)
      else if AtEnd(s, y) then MatchSeq(rest, s, y, c)
      else None
  {
    var bs: seq<string> := [b];
    assert bs[0] == b && bs[1..] == [];
    assert Options(rest, s, y, [], true, true, bs, c) == if AtEnd(s, y) then MatchSeq(rest, s, y, c) else None;
  }

  function UntilMatch(a: string, b: string, s: string, i: nat): Match
    requires i + |a| <= |s|
  {
    var e := StopAt(s, b, i + |a|);
    Match(i, if At(s, b, e) then e + |b| else e, Group1(i + |a|, e))
  }

  lemma UntilOrEndAt(a: string, b: string, s: string, i: nat)
    requires i <= |s|
    ensures MatchAt(UntilOrEnd(a, b), s, i) == if At(s, a, i) then Some(UntilMatch(a, b, s, i)) else None
  {
    SingleBranch(UntilOrEnd(a, b), s, i);
    if At(s, a, i) {
      UntilHit(a, b, s, i);
    } else {
      LitMiss(UntilOrEnd(a, b).branches[0], s, i, map[]);
    }
  }

  lemma UntilHit(a: string, b: string, s: string, i: nat)
    requires At(s, a, i)
    ensures HitMatch(i, MatchSeq(UntilOrEnd(a, b).branches[0], s, i, map[])) == Some(UntilMatch(a, b, s, i))
  {
    var pat := UntilOrEnd(a, b).branches[0];
    var rest: Pattern := [Rep(AnyChar, 0, false), Close(1), AltLit([b], true)];
    var p := i + |a|;
    var c := map[2 := p];
    assert map[][2 := p] == c;
    assert pat[1..] == [Open(1)] + rest;
    assert ([Open(1)] + rest)[1..] == rest;
    assert MatchSeq(pat, s, i, map[]) == MatchSeq(pat[1..], s, p, map[]);
    assert MatchSeq(pat[1..], s, p, map[]) == MatchSeq(rest, s, p, c);
    LazyThenLabelOrEnd(b, s, p, c);
    var e := StopAt(s, b, p);
    assert c[3 := e] == Group1(p, e);
  }

  /** `(.*?)` up to the end of group 1 and `(?:b|$)`: the group ends at the first
      `b` or at the end. */
  lemma LazyThenLabelOrEnd(b: string, s: string, p: nat, c: Caps)
    requires p <= |s| && Bounded(c, |s|)
    ensures var e := StopAt(s, b, p);
      MatchSeq([Rep(AnyChar, 0, false), Close(1), AltLit([b], true)], s, p, c) ==
        Some(Hit(if At(s, b, e) then e + |b| else e, c[3 := e]))
  {
    var q: Pattern := [Rep(AnyChar, 0, false), Close(1), AltLit([b], true)];
    var tail: Pattern := [Close(1), AltLit([b], true)];
    assert q[0..] == q && q[1..] == tail;
    LazyStep(q, 0, s, p, c);
    RunAnyChar(s, p);
    assert MatchSeq(q, s, p, c) == Lazy(tail, s, p, 0, |s| - p, c);
    var e := StopAt(s, b, p);
    var k := e - p;
    assert p + k == e;
    LabelOrEndBefore(b, s, p, e, c);
    var h := MatchSeq(tail, s, e, c);
    CloseThenLabelOrEnd(b, s, e, c);
    assert h == Some(Hit(if At(s, b, e) then e + |b| else e, c[3 := e]));
    LazyFirst(tail, s, p, 0, |s| - p, c, k);
    assert Lazy(tail, s, p, 0, |s| - p, c) == h;
  }

  /** Before the first `b` or the end, `)(?:b|$)` matches nowhere. */
  lemma LabelOrEndBefore(b: string, s: string, p: nat, e: nat, c: Caps)
    requires p <= |s| && Bounded(c, |s|) && e == StopAt(s, b, p)
    ensures forall x :: p <= x < e ==> MatchSeq([Close(1), AltLit([b], true)], s, x, c).None?
  {
    forall x | p <= x < e ensures MatchSeq([Close(1), AltLit([b], true)], s, x, c).None? {
      CloseThenLabelOrEnd(b, s, x, c);
    }
  }

  /** `a(.*?)(?:b|$)` under `re.DOTALL` (the comment of a trade-block email): it
      matches at the first `a`, and its group runs to the first `b` or to the end. */
  lemma UntilOrEndSearch(a: string, b: string, s: string)
    ensures Search(UntilOrEnd(a, b), s) ==
      match Find(s, a)
      case None => None
      case Some(i) => Some(UntilMatch(a, b, s, i))
  {
    var re := UntilOrEnd(a, b);
    forall x | 0 <= x <= |s| ensures MatchAt(re, s, x) == if At(s, a, x) then Some(UntilMatch(a, b, s, x)) else None {
      UntilOrEndAt(a, b, s, x);
    }
    match Find(s, a)
    case None =>
      SearchMiss(re, s);
    case Some(i) =>
      SearchAt(re, s, i);
  }

  /** `c{min,}` alone, greedy: the whole run, when it is long enough. */
  lemma RepAlone(cls: Class, min: nat, s: string, i: nat)
    requires i <= |s|
    ensures MatchSeq([Rep(cls, min, true)], s, i, map[]) ==
      if Run(cls, s, i) < min then None else Some(Hit(i + Run(cls, s, i), map[]))
  {
    var p := [Rep(cls, min, true)];
    assert p[1..] == [];
    var n := Run(cls, s, i);
    if n >= min {
      assert MatchSeq(p, s, i, map[]) == Longest([], s, i, min, n, map[]);
      assert Longest([], s, i, min, n, map[]) == MatchSeq([], s, i + n, map[]);
    }
  }

  /** `\n+|\s{2,}`: the breaks between the players of a trade-block email. */
  const PlayerBreak := Regex([[Rep(Newline, 1, true)], [Rep(Spaces, 2, true)]])

  lemma PlayerBreakAt(s: string, j: nat)
    requires j <= |s|
    ensures NonEmpty(PlayerBreak)
    ensures MatchAt(PlayerBreak, s, j).Some? <==>
      (j < |s| && s[j] == '\n') || (j + 1 < |s| && IsSpace(s[j]) && IsSpace(s[j + 1]))
  {
    var bs := PlayerBreak.branches;
    assert bs[0][1..] == [] && bs[1][1..] == [];
    assert MinLen(bs[0]) == 1 && MinLen(bs[1]) == 2;
    assert bs[1..] == [bs[1]] && bs[1..][1..] == [];
    RepAlone(Newline, 1, s, j);
    RepAlone(Spaces, 2, s, j);
    assert j < |s| ==> (Run(Newline, s, j) >= 1 <==> s[j] == '\n');
    if j + 1 < |s| && IsSpace(s[j]) && IsSpace(s[j + 1]) {
      assert Run(Spaces, s, j + 1) >= 1;
    }
    if Run(Spaces, s, j) >= 2 {
      assert InClass(Spaces, s[j]) && InClass(Spaces, s[j + 1]);
    }
    assert MatchAt(PlayerBreak, s, j) == Branches(bs, s, j);
    if MatchSeq(bs[0], s, j, map[]).None? {
      assert Branches(bs, s, j) == Branches(bs[1..], s, j);
      assert bs[1..][0] == bs[1];
      if MatchSeq(bs[1], s, j, map[]).None? {
        assert Branches(bs[1..], s, j) == Branches(bs[1..][1..], s, j);
      }
    }
  }

  /** One line, with no two white-space characters side by side. */
  predicate SingleSpacedLine(t: string) {
    (forall x :: 0 <= x < |t| ==> t[x] != '\n') &&
    (forall x :: 0 <= x < |t| - 1 ==> !(IsSpace(t[x]) && IsSpace(t[x + 1])))
  }

  /** The pieces of `re.split(r"\n+|\s{2,}", s)` hold no line break and no two
      white-space characters in a row. */
  lemma PlayerPieces(s: string)
    ensures NonEmpty(PlayerBreak)
    ensures forall n :: 0 <= n < |ReSplit(PlayerBreak, s)| ==> SingleSpacedLine(ReSplit(PlayerBreak, s)[n])
  {
    PlayerBreakAt(s, 0);
    var spans := SplitFrom(PlayerBreak, s, 0);
    var pieces := ReSplit(PlayerBreak, s);
    forall n | 0 <= n < |pieces| ensures SingleSpacedLine(pieces[n]) {
      var (a, b) := spans[n];
      assert pieces[n] == s[a..b];
      assert forall j :: a <= j < b ==> MatchAt(PlayerBreak, s, j).None?;
      PieceSingleSpaced(s, a, b);
    }
  }

  /** A stretch of text where the break pattern matches nowhere is one line
      without two white-space characters side by side. */
  lemma PieceSingleSpaced(s: string, a: nat, b: nat)
    requires a <= b <= |s|
    requires forall j :: a <= j < b ==> MatchAt(PlayerBreak, s, j).None?
    ensures SingleSpacedLine(s[a..b])
  {
    var t := s[a..b];
    forall x | 0 <= x < |t| ensures t[x] != '\n' && (x + 1 < |t| ==> !(IsSpace(t[x]) && IsSpace(t[x + 1]))) {
      assert t[x] == s[a + x];
      assert x + 1 < |t| ==> t[x + 1] == s[a + x + 1];
      PlayerBreakAt(s, a + x);
    }
  }

  /** A break of `\n+|\s{2,}` starts at `j`: a line break, or two white-space
      characters side by side. */
  predicate BreakStart(s: string, j: nat) {
    (j < |s| && s[j] == '\n') || (j + 1 < |s| && IsSpace(s[j]) && IsSpace(s[j + 1]))
  }

  /** Where the break at `j` ends. The alternatives are tried in order: a break
      that starts with a line break is the run of line breaks, any other is the
      whole run of white space. */
  function BreakEnd(s: string, j: nat): (e: nat)
    requires BreakStart(s, j)
    ensures j < e <= |s|
  {
    if s[j] == '\n' then NewlinesEnd(s, j + 1) else SpacesEnd(s, j + 2)
  }

  /** The end of the run of line breaks that goes on at `j`. */
  function NewlinesEnd(s: string, j: nat): (e: nat)
    requires j <= |s|
    ensures j <= e <= |s|
    decreases |s| - j
  {
    if j < |s| && s[j] == '\n' then NewlinesEnd(s, j + 1) else j
  }

  /** The end of the run of white space that goes on at `j`. */
  function SpacesEnd(s: string, j: nat): (e: nat)
    requires j <= |s|
    ensures j <= e <= |s|
    decreases |s| - j
  {
    if j < |s| && IsSpace(s[j]) then SpacesEnd(s, j + 1) else j
  }

  lemma {:induction false} NewlinesEndRun(s: string, j: nat)
    requires j <= |s|
    ensures NewlinesEnd(s, j) == j + Run(Newline, s, j)
    decreases |s| - j
  {
    if j < |s| && s[j] == '\n' {
      NewlinesEndRun(s, j + 1);
    }
  }

  lemma {:induction false} SpacesEndRun(s: string, j: nat)
    requires j <= |s|
    ensures SpacesEnd(s, j) == j + Run(Spaces, s, j)
    decreases |s| - j
  {
    if j < |s| && IsSpace(s[j]) {
      SpacesEndRun(s, j + 1);
    }
  }

  /** `re.split(r"\n+|\s{2,}", s[a..])` character by character: the piece that
      starts at `a` runs to the first break start at or after `k`, and the next
      piece starts where that break ends. */
  function BreakPieces(s: string, a: nat, k: nat): (r: seq<string>)
    requires a <= k <= |s|
    decreases |s| - k
  {
    if k == |s| then [s[a..]]
    else if BreakStart(s, k) then [s[a..k]] + BreakPieces(s, BreakEnd(s, k), BreakEnd(s, k))
    else BreakPieces(s, a, k + 1)
  }

  /** The break pattern matches at a break start, up to where the break ends. */
  lemma PlayerBreakEnd(s: string, j: nat)
    requires BreakStart(s, j)
    ensures MatchAt(PlayerBreak, s, j).Some? && MatchAt(PlayerBreak, s, j).value.end == BreakEnd(s, j)
  {
    var bs := PlayerBreak.branches;
    RepAlone(Newline, 1, s, j);
    RepAlone(Spaces, 2, s, j);
    assert MatchAt(PlayerBreak, s, j) == Branches(bs, s, j);
    if s[j] == '\n' {
      NewlinesEndRun(s, j + 1);
    } else {
      SpacesEndRun(s, j + 2);
      assert Run(Newline, s, j) == 0;
      assert Run(Spaces, s, j + 1) >= 1;
      assert Branches(bs, s, j) == Branches(bs[1..], s, j);
      assert bs[1..][0] == bs[1];
    }
  }

  /** The texts of a list of spans. */
  function SpanTexts(s: string, spans: seq<(nat, nat)>): seq<string>
    requires forall n :: 0 <= n < |spans| ==> spans[n].0 <= spans[n].1 <= |s|
  {
    seq(|spans|, n requires 0 <= n < |spans| => s[spans[n].0..spans[n].1])
  }

  lemma SpanTextsCons(s: string, x: (nat, nat), rest: seq<(nat, nat)>)
    requires x.0 <= x.1 <= |s| && forall n :: 0 <= n < |rest| ==> rest[n].0 <= rest[n].1 <= |s|
    ensures SpanTexts(s, [x] + rest) == [s[x.0..x.1]] + SpanTexts(s, rest)
  {
    var l := [x] + rest;
    assert forall n :: 0 < n < |l| ==> l[n] == rest[n - 1];
  }

  /** The pieces `re.split` finds from `a` on are the `BreakPieces`, given that
      no break starts between `a` and `k`. */
  lemma {:induction false} SplitBreaks(s: string, a: nat, k: nat)
    requires a <= k <= |s| && forall j :: a <= j < k ==> !BreakStart(s, j)
    ensures NonEmpty(PlayerBreak)
    ensures SpanTexts(s, SplitFrom(PlayerBreak, s, a)) == BreakPieces(s, a, k)
    decreases |s| - k
  {
    PlayerBreakAt(s, a);
    if k == |s| {
      SplitToEnd(s, a);
    } else if BreakStart(s, k) {
      var e := BreakEnd(s, k);
      SplitBreaks(s, e, e);
      SplitBreakStep(s, a, k);
    } else {
      SplitBreaks(s, a, k + 1);
      BreakPiecesSkip(s, a, k);
    }
  }

  /** The step of `SplitBreaks` at a break start. */
  lemma SplitBreakStep(s: string, a: nat, k: nat)
    requires a <= k < |s| && BreakStart(s, k) && forall j :: a <= j < k ==> !BreakStart(s, j)
    requires NonEmpty(PlayerBreak)
    requires SpanTexts(s, SplitFrom(PlayerBreak, s, BreakEnd(s, k))) == BreakPieces(s, BreakEnd(s, k), BreakEnd(s, k))
    ensures SpanTexts(s, SplitFrom(PlayerBreak, s, a)) == BreakPieces(s, a, k)
  {
    var e := BreakEnd(s, k);
    var rest := SplitFrom(PlayerBreak, s, e);
    SplitStep(s, a, k);
    SpanTextsCons(s, (a, k), rest);
    BreakPiecesAt(s, a, k);
  }

  lemma BreakPiecesAt(s: string, a: nat, k: nat)
    requires a <= k < |s| && BreakStart(s, k)
    ensures BreakPieces(s, a, k) == [s[a..k]] + BreakPieces(s, BreakEnd(s, k), BreakEnd(s, k))
  {
  }

  lemma BreakPiecesSkip(s: string, a: nat, k: nat)
    requires a <= k < |s| && !BreakStart(s, k)
    ensures BreakPieces(s, a, k) == BreakPieces(s, a, k + 1)
  {
  }

  /** With no break start from `a` on, the rest of the text is one piece. */
  lemma SplitToEnd(s: string, a: nat)
    requires a <= |s| && forall j :: a <= j < |s| ==> !BreakStart(s, j)
    requires NonEmpty(PlayerBreak)
    ensures SpanTexts(s, SplitFrom(PlayerBreak, s, a)) == BreakPieces(s, a, |s|)
  {
    forall j | a <= j <= |s| ensures MatchAt(PlayerBreak, s, j).None? {
      assert !BreakStart(s, j);
      PlayerBreakAt(s, j);
    }
    assert SplitFrom(PlayerBreak, s, a) == [(a, |s|)];
    assert SpanTexts(s, [(a, |s|)])[0] == s[a..];
  }

  /** `re.split` at a break start: the piece before it, then the pieces after it. */
  lemma SplitStep(s: string, a: nat, k: nat)
    requires a <= k < |s| && BreakStart(s, k) && forall j :: a <= j < k ==> !BreakStart(s, j)
    requires NonEmpty(PlayerBreak)
    ensures SplitFrom(PlayerBreak, s, a) == [(a, k)] + SplitFrom(PlayerBreak, s, BreakEnd(s, k))
  {
    forall j | a <= j < k ensures MatchAt(PlayerBreak, s, j).None? {
      assert !BreakStart(s, j);
      PlayerBreakAt(s, j);
    }
    PlayerBreakEnd(s, k);
    SearchFromAt(PlayerBreak, s, a, k);
  }

  /** `re.split(r"\n+|\s{2,}", s)` is `BreakPieces`: the maximal stretches
      without a break start, in order, each break running as far as its
      alternative reaches. */
  lemma PlayerSplit(s: string)
    ensures NonEmpty(PlayerBreak)
    ensures ReSplit(PlayerBreak, s) == BreakPieces(s, 0, 0)
  {
    SplitBreaks(s, 0, 0);
  }

  /** `\s*\(\d{2}:\d{2}:\d{2}\)\s*$`: a clock time in parentheses at the end of a title. */
  const TitleStamp := Regex([[
    Rep(Spaces, 0, true), Lit("("), One(Digits), One(Digits), Lit(":"), One(Digits), One(Digits),
    Lit(":"), One(Digits), One(Digits), Lit(")"), Rep(Spaces, 0, true), AltLit([], true)]])

  /** `(dd:dd:dd)` stands at `y`. */
  predicate Clock(s: string, y: nat) {
    y + 10 <= |s| && s[y] == '(' && IsDigit(s[y + 1]) && IsDigit(s[y + 2]) && s[y + 3] == ':' &&
    IsDigit(s[y + 4]) && IsDigit(s[y + 5]) && s[y + 6] == ':' && IsDigit(s[y + 7]) &&
    IsDigit(s[y + 8]) && s[y + 9] == ')'
  }

  lemma AtChar(s: string, c: char, y: nat)
    ensures At(s, [c], y) <==> y < |s| && s[y] == c
  {
    if y < |s| {
      assert s[y..y + 1] == [s[y]];
    }
  }

  /** One step of a pattern that stands at literal text. */
  lemma LitStep(p: Pattern, k: nat, s: string, y: nat, c: Caps)
    requires k < |p| && p[k].Lit? && y <= |s| && Bounded(c, |s|)
    ensures MatchSeq(p[k..], s, y, c) ==
      if At(s, p[k].text, y) then MatchSeq(p[k + 1..], s, y + |p[k].text|, c) else None
  {
    assert p[k..][0] == p[k] && p[k..][1..] == p[k + 1..];
  }

  /** One step of a pattern that stands at one character of a class. */
  lemma OneStep(p: Pattern, k: nat, s: string, y: nat, c: Caps)
    requires k < |p| && p[k].One? && y <= |s| && Bounded(c, |s|)
    ensures MatchSeq(p[k..], s, y, c) ==
      if y < |s| && InClass(p[k].cls, s[y]) then MatchSeq(p[k + 1..], s, y + 1, c) else None
  {
    assert p[k..][0] == p[k] && p[k..][1..] == p[k + 1..];
  }

  /** The atoms of `\(\d{2}:\d{2}:\d{2}\)` from position 1 of a pattern on. */
  predicate ClockAtoms(p: Pattern) {
    |p| >= 11 && p[1] == Lit("(") && p[2] == One(Digits) && p[3] == One(Digits) && p[4] == Lit(":") &&
    p[5] == One(Digits) && p[6] == One(Digits) && p[7] == Lit(":") && p[8] == One(Digits) &&
    p[9] == One(Digits) && p[10] == Lit(")")
  }

  lemma ClockSeq(p: Pattern, s: string, y: nat)
    requires ClockAtoms(p) && y <= |s|
    ensures MatchSeq(p[1..], s, y, map[]) ==
      if Clock(s, y) then MatchSeq(p[11..], s, y + 10, map[]) else None
  {
    var c: Caps := map[];
    AtChar(s, '(', y);
    LitStep(p, 1, s, y, c);
    if y < |s| && s[y] == '(' {
      OneStep(p, 2, s, y + 1, c);
      if y + 1 < |s| && IsDigit(s[y + 1]) {
        OneStep(p, 3, s, y + 2, c);
        if y + 2 < |s| && IsDigit(s[y + 2]) {
          AtChar(s, ':', y + 3);
          LitStep(p, 4, s, y + 3, c);
          if y + 3 < |s| && s[y + 3] == ':' {
            ClockSeqRest(p, s, y);
          }
        }
      }
    }
  }

  lemma ClockSeqRest(p: Pattern, s: string, y: nat)
    requires ClockAtoms(p)
    requires y + 4 <= |s| && s[y] == '(' && IsDigit(s[y + 1]) && IsDigit(s[y + 2]) && s[y + 3] == ':'
    ensures MatchSeq(p[5..], s, y + 4, map[]) ==
      if Clock(s, y) then MatchSeq(p[11..], s, y + 10, map[]) else None
  {
    var c: Caps := map[];
    OneStep(p, 5, s, y + 4, c);
    if y + 4 < |s| && IsDigit(s[y + 4]) {
      OneStep(p, 6, s, y + 5, c);
      if y + 5 < |s| && IsDigit(s[y + 5]) {
        AtChar(s, ':', y + 6);
        LitStep(p, 7, s, y + 6, c);
        if y + 6 < |s| && s[y + 6] == ':' {
          OneStep(p, 8, s, y + 7, c);
          if y + 7 < |s| && IsDigit(s[y + 7]) {
            OneStep(p, 9, s, y + 8, c);
            if y + 8 < |s| && IsDigit(s[y + 8]) {
              AtChar(s, ')', y + 9);
              LitStep(p, 10, s, y + 9, c);
            }
          }
        }
      }
    }
  }

  /** The atoms of `TitleStamp`: white space, the clock, white space and the end. */
  predicate StampAtoms(p: Pattern) {
    ClockAtoms(p) && |p| == 13 && p[0] == Rep(Spaces, 0, true) && p[11] == Rep(Spaces, 0, true) &&
    p[12] == AltLit([], true)
  }

  /** `\s*$` after the clock: it matches exactly when only white space is left. */
  lemma EndSpaces(p: Pattern, s: string, z: nat)
    requires StampAtoms(p) && z <= |s|
    ensures MatchSeq(p[11..], s, z, map[]) ==
      if z + Run(Spaces, s, z) == |s| then Some(Hit(|s|, map[])) else None
  {
    var end: Pattern := [AltLit([], true)];
    var c: Caps := map[];
    var n := Run(Spaces, s, z);
    assert p[11..][0] == p[11] && p[11..][1..] == end && end[1..] == [];
    assert MatchSeq(p[11..], s, z, c) == Longest(end, s, z, 0, n, c);
    forall x | z <= x <= z + n
      ensures MatchSeq(end, s, x, c) == if AtEnd(s, x) then Some(Hit(x, c)) else None
    {
      assert MatchSeq(end, s, x, c) == Options([], s, x, [], true, true, [], c);
    }
    if z + n == |s| {
      LongestFirst(end, s, z, 0, n, c, n);
    } else {
      RunBounds(Spaces, s, z);
      assert !IsSpace(s[z + n]);
      LongestNone(end, s, z, 0, n, c);
    }
  }

  lemma NoParen(p: Pattern, s: string, z: nat)
    requires ClockAtoms(p) && z < |s| && s[z] != '('
    ensures MatchSeq(p[1..], s, z, map[]).None?
  {
    AtChar(s, '(', z);
    LitStep(p, 1, s, z, map[]);
  }

  /** The leading `\s*` of `TitleStamp` takes the whole run of white space at `x`. */
  lemma StampHead(p: Pattern, s: string, x: nat)
    requires StampAtoms(p) && x <= |s|
    ensures MatchSeq(p, s, x, map[]) == MatchSeq(p[1..], s, x + Run(Spaces, s, x), map[])
  {
    var c: Caps := map[];
    var n := Run(Spaces, s, x);
    RunBounds(Spaces, s, x);
    assert MatchSeq(p, s, x, c) == Longest(p[1..], s, x, 0, n, c);
    forall z | x <= z < x + n ensures MatchSeq(p[1..], s, z, c).None? {
      NoParen(p, s, z);
    }
    if MatchSeq(p[1..], s, x + n, c).Some? {
      LongestFirst(p[1..], s, x, 0, n, c, n);
    } else {
      LongestNone(p[1..], s, x, 0, n, c);
    }
  }

  /** Where `TitleStamp` matches: the white space from `x` on must run up to a clock
      that only white space follows; the match then reaches the end. */
  lemma StampAt(s: string, x: nat)
    requires x <= |s|
    ensures var y := x + Run(Spaces, s, x);
      MatchAt(TitleStamp, s, x) ==
        if Clock(s, y) && y + 10 + Run(Spaces, s, y + 10) == |s| then Some(Match(x, |s|, map[])) else None
  {
    var p := TitleStamp.branches[0];
    var y := x + Run(Spaces, s, x);
    assert StampAtoms(p);
    SingleBranch(TitleStamp, s, x);
    StampHead(p, s, x);
    ClockSeq(p, s, y);
    if Clock(s, y) {
      EndSpaces(p, s, y + 10);
    }
  }

  lemma {:induction false} MinLenAtom(p: Pattern, k: nat)
    requires k < |p|
    ensures MinLen(p) >= AtomMinLen(p[k])
  {
    if k > 0 {
      MinLenAtom(p[1..], k - 1);
      assert p[1..][k - 1] == p[k];
    }
  }

  lemma TitleStampNonEmpty()
    ensures NonEmpty(TitleStamp)
  {
    MinLenAtom(TitleStamp.branches[0], 1);
  }

  lemma {:induction false} RunStops(cls: Class, s: string, x: nat, z: nat)
    requires x <= z < |s| && !InClass(cls, s[z])
    ensures x + Run(cls, s, x) <= z
    decreases z - x
  {
    if x < z && InClass(cls, s[x]) {
      RunStops(cls, s, x + 1, z);
    }
  }

  /** The leftmost match of `TitleStamp` starts at the white space before the clock. */
  lemma StampSearch(s: string, q: nat, x0: nat)
    requires Clock(s, q) && x0 <= q
    requires forall k :: x0 <= k < q ==> IsSpace(s[k])
    requires x0 > 0 ==> !IsSpace(s[x0 - 1])
    requires forall k :: q + 10 <= k < |s| ==> IsSpace(s[k])
    ensures Search(TitleStamp, s) == Some(Match(x0, |s|, map[]))
  {
    forall x | 0 <= x < x0 ensures MatchAt(TitleStamp, s, x).None? {
      StampMiss(s, q, x0, x);
    }
    StampAtClock(s, q, x0);
    SearchAt(TitleStamp, s, x0);
  }

  /** Before the white space that leads to the clock, `TitleStamp` does not match. */
  lemma StampMiss(s: string, q: nat, x0: nat, x: nat)
    requires Clock(s, q) && x < x0 <= q
    requires !IsSpace(s[x0 - 1])
    ensures MatchAt(TitleStamp, s, x).None?
  {
    RunStops(Spaces, s, x, x0 - 1);
    var y := x + Run(Spaces, s, x);
    if Clock(s, y) {
      ClockBeforeClock(s, y, q);
    }
    StampFails(s, x, y);
  }

  /** `TitleStamp` fails at `x` when the white space from `x` on does not lead to
      a clock that only white space follows. */
  lemma StampFails(s: string, x: nat, y: nat)
    requires x <= |s| && y == x + Run(Spaces, s, x)
    requires !(Clock(s, y) && y + 10 + Run(Spaces, s, y + 10) == |s|)
    ensures MatchAt(TitleStamp, s, x).None?
  {
    StampAt(s, x);
  }

  /** A clock before another clock is followed by more than white space. */
  lemma ClockBeforeClock(s: string, y: nat, q: nat)
    requires Clock(s, y) && Clock(s, q) && y < q
    ensures y + 10 + Run(Spaces, s, y + 10) < |s|
  {
    assert s[q] == '(' && !IsSpace(s[q]);
    assert y + 10 <= q;
    RunStops(Spaces, s, y + 10, q);
  }

  /** From the white space that leads to the clock, `TitleStamp` matches to the end. */
  lemma StampAtClock(s: string, q: nat, x0: nat)
    requires Clock(s, q) && x0 <= q
    requires forall k :: x0 <= k < q ==> IsSpace(s[k])
    requires forall k :: q + 10 <= k < |s| ==> IsSpace(s[k])
    ensures MatchAt(TitleStamp, s, x0) == Some(Match(x0, |s|, map[]))
  {
    StampAt(s, x0);
    RunCovers(Spaces, s, x0, q);
    assert !IsSpace(s[q]);
    RunStops(Spaces, s, x0, q);
    assert x0 + Run(Spaces, s, x0) == q;
    RunCovers(Spaces, s, q + 10, |s|);
  }

  /** `re.sub(TitleStamp, "", s)` with a clock at `q` and only white space after
      it: the clock and the white space before it are removed. */
  lemma StampRemoved(s: string, q: nat)
    requires Clock(s, q)
    requires forall k :: q + 10 <= k < |s| ==> IsSpace(s[k])
    ensures NonEmpty(TitleStamp)
    ensures Sub(TitleStamp, s, "") == s[..q - TrailingSpace(s[..q])]
  {
    TitleStampNonEmpty();
    var u := s[..q];
    var x0 := q - TrailingSpace(u);
    SpaceSlice(u, x0, q);
    assert forall k :: 0 <= k < q ==> u[k] == s[k];
    StampSearch(s, q, x0);
    StampAt(s, |s|);
    assert SubFrom(TitleStamp, s, "", |s|) == [];
    assert Sub(TitleStamp, s, "") == s[0..x0] + "" + [];
  }

  /** A clock at `y` that only white space follows: what `\s*$` lets the pattern remove. */
  predicate ClockAtEnd(s: string, y: nat) {
    Clock(s, y) && forall k :: y + 10 <= k < |s| ==> IsSpace(s[k])
  }

  /** A title in which no clock stands at the end (only white space after it) is
      left as it is, whatever clocks it has elsewhere. */
  lemma StampAbsent(s: string)
    requires forall y :: 0 <= y <= |s| ==> !ClockAtEnd(s, y)
    ensures NonEmpty(TitleStamp)
    ensures Sub(TitleStamp, s, "") == s
  {
    TitleStampNonEmpty();
    forall x | 0 <= x <= |s| ensures MatchAt(TitleStamp, s, x).None? {
      StampAt(s, x);
      var y := x + Run(Spaces, s, x);
      if Clock(s, y) {
        RunBounds(Spaces, s, y + 10);
        assert !ClockAtEnd(s, y);
      }
    }
    SearchMiss(TitleStamp, s);
    assert s[0..] == s;
  }
}
