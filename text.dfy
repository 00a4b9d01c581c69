/** Optional values, for the places where the source returns `None`. */
module Wrappers {
  datatype Option<+T> = None | Some(value: T)
}

/**
 * The few `str` operations of Python that the two bots rely on, over `string`
 * (a sequence of Unicode scalar values): `isspace`, `strip`, `lower`, substring
 * search, `split(sep)` and `sep.join(...)`.
 */
module Text {
  import opened Wrappers

  /** Python's `str.isspace` for one character, which is also what `\s` matches
      in a `str` pattern: the ASCII separators, the C1 next-line character and the
      Unicode space and separator characters. */
  predicate IsSpace(c: char) {
    c == ' ' || ('\t' <= c <= '\r') || ('\U{001C}' <= c <= '\U{001F}') ||
    c == '\U{0085}' || c == '\U{00A0}' || c == '\U{1680}' || ('\U{2000}' <= c <= '\U{200A}') ||
    c == '\U{2028}' || c == '\U{2029}' || c == '\U{202F}' || c == '\U{205F}' || c == '\U{3000}'
  }

  predicate AllSpace(s: string) {
    forall k :: 0 <= k < |s| ==> IsSpace(s[k])
  }

  /** No leading and no trailing white space. */
  predicate Stripped(s: string) {
    s == [] || (!IsSpace(s[0]) && !IsSpace(s[|s| - 1]))
  }

  /** `t` occurs in `s` starting at index `i`. */
  predicate At(s: string, t: string, i: nat) {
    i + |t| <= |s| && s[i..i + |t|] == t
  }

  /** Python's `t in s`. */
  predicate Contains(s: string, t: string) {
    exists i :: 0 <= i <= |s| && At(s, t, i)
  }

  /** A string contains what it ends with. */
  lemma ContainsEnd(x: string, t: string)
    ensures Contains(x + t, t)
  {
    assert (x + t)[|x|..|x| + |t|] == t;
    assert At(x + t, t, |x|);
  }

  /** What a string contains, it still contains with more text after it. */
  lemma ContainsGrow(x: string, y: string, t: string)
    requires Contains(x, t)
    ensures Contains(x + y, t)
  {
    var i :| 0 <= i <= |x| && At(x, t, i);
    assert (x + y)[i..i + |t|] == x[i..i + |t|];
    assert At(x + y, t, i);
  }

  /** The end of the run of white space that starts at `k`. */
  function SpaceEnd(s: string, k: nat): (e: nat)
    requires k <= |s|
    ensures k <= e <= |s| && (forall x :: k <= x < e ==> IsSpace(s[x])) && (e < |s| ==> !IsSpace(s[e]))
    decreases |s| - k
  {
    if k == |s| || !IsSpace(s[k]) then k else SpaceEnd(s, k + 1)
  }

  /** The start of the run of white space that ends at `k`. */
  function SpaceStart(s: string, k: nat): (b: nat)
    requires k <= |s|
    ensures b <= k && (forall x :: b <= x < k ==> IsSpace(s[x])) && (b > 0 ==> !IsSpace(s[b - 1]))
  {
    if k == 0 || !IsSpace(s[k - 1]) then k else SpaceStart(s, k - 1)
  }

  /** Length of the white-space suffix of `s`. */
  function TrailingSpace(s: string): (n: nat)
    ensures n <= |s| && forall k :: |s| - n <= k < |s| ==> IsSpace(s[k])
    ensures n < |s| ==> !IsSpace(s[|s| - n - 1])
  {
    |s| - SpaceStart(s, |s|)
  }

  /** Python's `s.strip()`. */
  function Strip(s: string): (r: string)
    ensures Stripped(r)
  {
    var i := SpaceEnd(s, 0);
    if i == |s| then []
    else
      var j := SpaceStart(s, |s|);
      assert i < j;
      s[i..j]
  }

  /** The strip of `s` is the middle of `s` between a white-space prefix and a
      white-space suffix. */
  lemma StripBounds(s: string) returns (i: nat, j: nat)
    ensures i <= j <= |s| && Strip(s) == s[i..j] && AllSpace(s[..i]) && AllSpace(s[j..])
  {
    i := SpaceEnd(s, 0);
    SpaceSlice(s, 0, i);
    if i == |s| {
      j := i;
      assert AllSpace(s[|s|..]);
    } else {
      j := SpaceStart(s, |s|);
      SpaceSlice(s, j, |s|);
    }
  }

  /** A string that only white space surrounds is its own strip. */
  lemma StripStripped(s: string)
    requires Stripped(s)
    ensures Strip(s) == s
  {
    if s != [] {
      StripUnique(s, 0, |s|);
    }
  }

  /** Stripping is idempotent. */
  lemma StripIdempotent(s: string)
    ensures Strip(Strip(s)) == Strip(s)
  {
    StripStripped(Strip(s));
  }

  /** White space in a slice, by position in the whole string. */
  lemma SpaceSlice(s: string, a: nat, b: nat)
    requires a <= b <= |s|
    ensures AllSpace(s[a..b]) <==> forall k :: a <= k < b ==> IsSpace(s[k])
  {
    assert forall k :: a <= k < b ==> s[a..b][k - a] == s[k];
  }

  /** The strip of a string is the one stripped middle between two runs of white space. */
  lemma StripUnique(s: string, i: nat, j: nat)
    requires i <= j <= |s|
    requires forall k :: 0 <= k < i ==> IsSpace(s[k])
    requires forall k :: j <= k < |s| ==> IsSpace(s[k])
    requires i < j ==> !IsSpace(s[i]) && !IsSpace(s[j - 1])
    ensures Strip(s) == s[i..j]
  {
    var e := SpaceEnd(s, 0);
    if i == j {
      assert forall k :: 0 <= k < |s| ==> IsSpace(s[k]);
      assert e == |s|;
    } else {
      assert e == i;
      var b := SpaceStart(s, |s|);
      assert b == j;
    }
  }

  /** Python's `str.lower()` on one character: ASCII and Latin-1 capitals. */
  function LowerChar(c: char): (d: char)
    ensures ('A' <= c <= 'Z') ==> d as int == c as int + 32
    ensures !('A' <= c <= 'Z') && !('\U{00C0}' <= c <= '\U{00DE}') ==> d == c
  {
    if 'A' <= c <= 'Z' || ('\U{00C0}' <= c <= '\U{00DE}' && c != '\U{00D7}') then (c as int + 32) as char
    else c
  }

  /** Python's `str.lower()`, character by character. */
  function Lower(s: string): (r: string)
    ensures |r| == |s|
    ensures forall k :: 0 <= k < |s| ==> r[k] == LowerChar(s[k])
  {
    seq(|s|, k requires 0 <= k < |s| => LowerChar(s[k]))
  }

  /** Lower-casing twice changes nothing more than lower-casing once. */
  lemma LowerIdempotent(s: string)
    ensures Lower(Lower(s)) == Lower(s)
  {
  }

  /** Leftmost index at or after `k` where `t` occurs in `s`. */
  function FindFrom(s: string, t: string, k: nat): (r: Option<nat>)
    requires k <= |s|
    ensures r.Some? ==> k <= r.value <= |s| && At(s, t, r.value)
    decreases |s| - k
  {
    if At(s, t, k) then Some(k)
    else if k == |s| then None
    else FindFrom(s, t, k + 1)
  }

  /** Before the first occurrence from `k` on, `t` does not occur. */
  lemma {:induction false} FindFromBefore(s: string, t: string, k: nat, j: nat)
    requires k <= j <= |s| && (FindFrom(s, t, k).None? || j < FindFrom(s, t, k).value)
    ensures !At(s, t, j)
    decreases j - k
  {
    if k < j {
      FindFromBefore(s, t, k + 1, j);
    }
  }

  /** An occurrence at `j` is found from any `k` up to `j`, at `j` or before. */
  lemma {:induction false} FindFromAt(s: string, t: string, k: nat, j: nat)
    requires k <= j <= |s| && At(s, t, j)
    ensures FindFrom(s, t, k).Some? && FindFrom(s, t, k).value <= j
    decreases j - k
  {
    if !At(s, t, k) {
      FindFromAt(s, t, k + 1, j);
    }
  }

  /** Nothing found from `k` on means nothing found from any later `y`. */
  lemma {:induction false} FindFromNoneLater(s: string, t: string, k: nat, y: nat)
    requires k <= y <= |s| && FindFrom(s, t, k).None?
    ensures FindFrom(s, t, y).None?
    decreases y - k
  {
    if k < y {
      FindFromNoneLater(s, t, k + 1, y);
    }
  }

  lemma FindFromMiss(s: string, t: string, k: nat)
    requires k <= |s| && FindFrom(s, t, k).None?
    ensures forall j :: k <= j <= |s| ==> !At(s, t, j)
  {
    forall j | k <= j <= |s| ensures !At(s, t, j) {
      FindFromBefore(s, t, k, j);
    }
  }

  lemma FindFromFirst(s: string, t: string, k: nat)
    requires k <= |s| && FindFrom(s, t, k).Some?
    ensures forall j :: k <= j < FindFrom(s, t, k).value ==> !At(s, t, j)
  {
    forall j | k <= j < FindFrom(s, t, k).value ensures !At(s, t, j) {
      FindFromBefore(s, t, k, j);
    }
  }

  /** Leftmost occurrence of `t` in `s`; it exists exactly when `t in s`. */
  function Find(s: string, t: string): (r: Option<nat>)
    ensures r.Some? <==> Contains(s, t)
    ensures r.Some? ==> At(s, t, r.value) && forall j :: 0 <= j < r.value ==> !At(s, t, j)
  {
    if FindFrom(s, t, 0).Some? then
      FindFromFirst(s, t, 0);
      FindFrom(s, t, 0)
    else
      FindFromMiss(s, t, 0);
      FindFrom(s, t, 0)
  }

  /** Python's `s.split(sep)` for a non-empty separator: cut at each leftmost,
      non-overlapping occurrence of `sep`. */
  function Split(s: string, sep: string): (parts: seq<string>)
    requires sep != []
    ensures |parts| >= 1
    ensures forall k :: 0 <= k < |parts| ==> !Contains(parts[k], sep)
    decreases |s|
  {
    match Find(s, sep)
    case None => [s]
    case Some(i) =>
      HeadClear(s, sep, i);
      [s[..i]] + Split(s[i + |sep|..], sep)
  }

  /** What comes before the first occurrence of `sep` does not contain it. */
  lemma HeadClear(s: string, sep: string, i: nat)
    requires sep != [] && Find(s, sep) == Some(i)
    ensures i <= |s| && !Contains(s[..i], sep)
  {
    var head := s[..i];
    forall j | 0 <= j <= |head| ensures !At(head, sep, j) {
      if At(head, sep, j) {
        assert s[j..j + |sep|] == head[j..j + |sep|];
        assert At(s, sep, j) && j < i;
      }
    }
  }

  /** Python's `sep.join(parts)`. */
  function Join(parts: seq<string>, sep: string): (r: string)
    ensures |parts| == 1 ==> r == parts[0]
  {
    if |parts| == 0 then []
    else if |parts| == 1 then parts[0]
    else parts[0] + sep + Join(parts[1..], sep)
  }

  /** Joining the pieces of a split with the separator gives back the string. */
  lemma {:induction false} JoinSplit(s: string, sep: string)
    requires sep != []
    ensures Join(Split(s, sep), sep) == s
    decreases |s|
  {
    match Find(s, sep)
    case None =>
    case Some(i) =>
      var rest := s[i + |sep|..];
      SplitFound(s, sep, i);
      JoinSplit(rest, sep);
      JoinCons(s[..i], Split(rest, sep), sep);
      Rejoin(s, sep, i);
  }

  lemma SplitFound(s: string, sep: string, i: nat)
    requires sep != [] && Find(s, sep) == Some(i)
    ensures i + |sep| <= |s| && Split(s, sep) == [s[..i]] + Split(s[i + |sep|..], sep)
  {
    assert At(s, sep, i);
    var tail := Split(s[i + |sep|..], sep);
    assert Split(s, sep) == [s[..i]] + tail;
  }

  lemma JoinCons(head: string, tail: seq<string>, sep: string)
    requires |tail| >= 1
    ensures Join([head] + tail, sep) == head + sep + Join(tail, sep)
  {
    assert ([head] + tail)[0] == head && ([head] + tail)[1..] == tail;
  }

  lemma Rejoin(s: string, sep: string, i: nat)
    requires At(s, sep, i)
    ensures s[..i] + sep + s[i + |sep|..] == s
  {
    assert s[i..i + |sep|] == sep;
    assert s == s[..i] + s[i..i + |sep|] + s[i + |sep|..];
  }

  /** A string without the separator splits into itself alone. */
  lemma SplitWithout(s: string, sep: string)
    requires sep != [] && !Contains(s, sep)
    ensures Split(s, sep) == [s]
  {
  }

  /** Rightmost index at or below `k` where `t` occurs in `s`. */
  function FindLastBelow(s: string, t: string, k: nat): (r: Option<nat>)
    requires k <= |s|
    ensures r.Some? ==> r.value <= k && At(s, t, r.value)
    ensures r.Some? ==> forall j :: r.value < j <= k ==> !At(s, t, j)
    ensures r.None? ==> forall j :: 0 <= j <= k ==> !At(s, t, j)
  {
    if At(s, t, k) then Some(k)
    else if k == 0 then None
    else FindLastBelow(s, t, k - 1)
  }

  /** Rightmost occurrence of `t` in `s`, where `s.rsplit(t, 1)` cuts. */
  function FindLast(s: string, t: string): (r: Option<nat>)
    ensures r.Some? <==> Contains(s, t)
    ensures r.Some? ==> At(s, t, r.value) && forall j :: r.value < j <= |s| ==> !At(s, t, j)
  {
    FindLastBelow(s, t, |s|)
  }

  /** A slice of a string without `t` has no `t` either. */
  lemma SliceWithout(s: string, t: string, i: nat, j: nat)
    requires i <= j <= |s|
    requires forall k :: i <= k <= |s| ==> !At(s, t, k)
    ensures !Contains(s[i..j], t)
  {
    var u := s[i..j];
    forall k | 0 <= k <= |u| ensures !At(u, t, k) {
      if At(u, t, k) {
        var w, z := u[k..k + |t|], s[i + k..i + k + |t|];
        assert forall x :: 0 <= x < |t| ==> w[x] == z[x];
        assert w == z;
        assert At(s, t, i + k);
      }
    }
  }

  /** Cutting off trailing white space does not change the strip. */
  lemma StripTrailingCut(u: string)
    ensures Strip(u[..|u| - TrailingSpace(u)]) == Strip(u)
  {
    if SpaceEnd(u, 0) == |u| {
      StripCutBlank(u);
    } else {
      StripCutText(u);
    }
  }

  lemma StripCutBlank(u: string)
    requires SpaceEnd(u, 0) == |u|
    ensures Strip(u[..|u| - TrailingSpace(u)]) == Strip(u)
  {
    var x0 := SpaceStart(u, |u|);
    assert |u| - TrailingSpace(u) == x0;
    assert forall k :: 0 <= k < |u| ==> IsSpace(u[k]);
    assert x0 == 0;
    var v := u[..x0];
    assert v == [];
    assert SpaceEnd(v, 0) == 0;
  }

  lemma StripCutText(u: string)
    requires SpaceEnd(u, 0) < |u|
    ensures Strip(u[..|u| - TrailingSpace(u)]) == Strip(u)
  {
    var x0 := SpaceStart(u, |u|);
    assert |u| - TrailingSpace(u) == x0;
    var v := u[..x0];
    var e := SpaceEnd(u, 0);
    assert !IsSpace(u[e]);
    assert e < x0;
    assert Strip(u) == u[e..x0];
    assert forall k :: 0 <= k < x0 ==> v[k] == u[k];
    StripUnique(v, e, x0);
    PrefixSlice(u, x0, e, x0);
  }

  lemma PrefixSlice(u: string, n: nat, a: nat, b: nat)
    requires a <= b <= n <= |u|
    ensures u[..n][a..b] == u[a..b]
  {
    assert forall k :: 0 <= k < b - a ==> u[..n][a..b][k] == u[a + k];
  }

  /** The pieces of a join on a one-character separator that no part contains
      are the parts again. */
  lemma {:induction false} SplitJoin(parts: seq<string>, c: char)
    requires |parts| >= 1
    requires forall n, k :: 0 <= n < |parts| && 0 <= k < |parts[n]| ==> parts[n][k] != c
    ensures Split(Join(parts, [c]), [c]) == parts
    decreases |parts|
  {
    var s := Join(parts, [c]);
    if |parts| == 1 {
      NoCharNoSplit(s, c);
    } else {
      var p0 := parts[0];
      var tail := parts[1..];
      assert parts == [p0] + tail;
      JoinCons(p0, tail, [c]);
      var rest := Join(tail, [c]);
      FirstCharAt(p0, c, rest);
      SplitFound(s, [c], |p0|);
      SplitJoin(tail, c);
    }
  }

  lemma NoCharNoSplit(s: string, c: char)
    requires forall k :: 0 <= k < |s| ==> s[k] != c
    ensures Split(s, [c]) == [s]
  {
    forall j | 0 <= j <= |s| ensures !At(s, [c], j) {
      assert j < |s| ==> s[j] != c;
      NotAtChar(s, c, j);
    }
    assert !Contains(s, [c]);
    SplitWithout(s, [c]);
  }

  lemma NotAtChar(s: string, c: char, j: nat)
    requires j < |s| ==> s[j] != c
    ensures !At(s, [c], j)
  {
    if j < |s| {
      assert s[j..j + 1][0] == s[j];
    }
  }

  lemma FirstCharAt(head: string, c: char, rest: string)
    requires forall k :: 0 <= k < |head| ==> head[k] != c
    ensures Find(head + [c] + rest, [c]) == Some(|head|)
    ensures (head + [c] + rest)[..|head|] == head && (head + [c] + rest)[|head| + 1..] == rest
  {
    var s := head + [c] + rest;
    forall j | 0 <= j < |head| ensures !At(s, [c], j) {
      assert s[j..j + 1][0] == s[j] == head[j];
    }
    assert s[|head|..|head| + 1] == [c];
    assert At(s, [c], |head|);
    assert Contains(s, [c]);
  }

  /** The text between the first `a` and the first `b` after it. */
  function TextBetween(text: string, a: string, b: string): (r: Option<string>)
    ensures r.Some? ==> Contains(text, a)
  {
    match Find(text, a)
    case None => None
    case Some(i) =>
      match FindFrom(text, b, i + |a|)
      case None => None
      case Some(j) => Some(text[i + |a|..j])
  }

  /** Leading white space does not change the strip. */
  lemma StripSkip(u: string, n: nat)
    requires n <= |u|
    requires forall k :: 0 <= k < n ==> IsSpace(u[k])
    ensures Strip(u[n..]) == Strip(u)
  {
    var i := SpaceEnd(u, 0);
    if i == |u| {
      var v := u[n..];
      assert forall k :: 0 <= k < |v| ==> IsSpace(v[k]) by {
        forall k | 0 <= k < |v| ensures IsSpace(v[k]) {
          assert v[k] == u[n + k];
        }
      }
      StripUnique(v, 0, 0);
      StripUnique(u, 0, 0);
    } else {
      var x0 := SpaceStart(u, |u|);
      assert !IsSpace(u[i]);
      assert n <= i < x0;
      StripShift(u, n, i, x0);
    }
  }

  lemma StripShift(u: string, n: nat, i: nat, j: nat)
    requires n <= i < j <= |u|
    requires forall k :: 0 <= k < i ==> IsSpace(u[k])
    requires forall k :: j <= k < |u| ==> IsSpace(u[k])
    requires !IsSpace(u[i]) && !IsSpace(u[j - 1])
    ensures Strip(u[n..]) == Strip(u)
  {
    StripUnique(u, i, j);
    StripSuffix(u, n, i, j);
  }

  lemma StripSuffix(u: string, n: nat, i: nat, j: nat)
    requires n <= i < j <= |u|
    requires forall k :: n <= k < i ==> IsSpace(u[k])
    requires forall k :: j <= k < |u| ==> IsSpace(u[k])
    requires !IsSpace(u[i]) && !IsSpace(u[j - 1])
    ensures Strip(u[n..]) == u[i..j]
  {
    var v := u[n..];
    assert forall k :: 0 <= k < i - n ==> IsSpace(v[k]) by {
      forall k | 0 <= k < i - n ensures IsSpace(v[k]) {
        assert v[k] == u[n + k];
      }
    }
    assert forall k :: j - n <= k < |v| ==> IsSpace(v[k]) by {
      forall k | j - n <= k < |v| ensures IsSpace(v[k]) {
        assert v[k] == u[n + k];
      }
    }
    assert v[i - n] == u[i] && v[j - n - 1] == u[j - 1];
    StripUnique(v, i - n, j - n);
    SliceOfSuffix(u, n, i, j);
  }

  lemma SliceOfSuffix(u: string, n: nat, i: nat, j: nat)
    requires n <= i <= j <= |u|
    ensures u[n..][i - n..j - n] == u[i..j]
  {
  }

  /** Stripping cannot create an occurrence. */
  lemma StripWithout(u: string, t: string)
    requires !Contains(u, t)
    ensures !Contains(Strip(u), t)
  {
    var i, j := StripBounds(u);
    SliceWithout(u, t, i, j);
  }

  /** Joining two non-empty lists is joining each and putting one separator between. */
  lemma {:induction false} JoinAppend(a: seq<string>, b: seq<string>, sep: string)
    requires a != [] && b != []
    ensures Join(a + b, sep) == Join(a, sep) + sep + Join(b, sep)
    decreases |a|
  {
    if |a| == 1 {
      assert (a + b)[1..] == b;
    } else {
      assert (a + b)[1..] == a[1..] + b;
      JoinAppend(a[1..], b, sep);
    }
  }

  /** No line break in `s`. */
  predicate NoBreak(s: string) {
    forall x :: 0 <= x < |s| ==> s[x] != '\n'
  }

  lemma NoBreakConcat(a: string, b: string)
    requires NoBreak(a) && NoBreak(b)
    ensures NoBreak(a + b)
  {
    assert forall x :: |a| <= x < |a + b| ==> (a + b)[x] == b[x - |a|];
  }

  /** A string has no line break exactly when it does not contain `"\n"`. */
  lemma NoBreakContains(s: string)
    ensures NoBreak(s) <==> !Contains(s, "\n")
  {
    if !NoBreak(s) {
      var x :| 0 <= x < |s| && s[x] == '\n';
      assert s[x..x + 1] == "\n";
      assert At(s, "\n", x);
    }
    if Contains(s, "\n") {
      var i :| 0 <= i <= |s| && At(s, "\n", i);
      assert s[i] == s[i..i + 1][0];
    }
  }

  /** Splitting on line breaks after a first line without one gives that line,
      then the lines of the rest. */
  lemma SplitFirstLine(t: string, rest: string)
    requires NoBreak(t)
    ensures Split(t + "\n" + rest, "\n") == [t] + Split(rest, "\n")
  {
    var s := t + "\n" + rest;
    forall j | 0 <= j < |t| ensures !At(s, "\n", j) {
      assert s[j..j + 1][0] == s[j] == t[j];
    }
    assert s[|t|..|t| + 1] == "\n";
    assert At(s, "\n", |t|);
    var r := Find(s, "\n");
    assert r.Some?;
    assert !(r.value < |t|);
    assert r.value == |t|;
    assert s[..|t|] == t && s[|t| + 1..] == rest;
  }
}
