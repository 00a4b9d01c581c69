/**
 * What the parsers of transactions/email.py return for each kind of e-mail
 * (the dictionaries built by `_parse_trade_block`, `_parse_trade`,
 * `_parse_claim`, `_parse_drop` and `_parse_draft`), and the list clean-up
 * they share: strip every piece and keep the non-empty ones.
 */
module Notice {
  import opened Text

  datatype Data =
    | BlockData(team: string, playersOffered: seq<string>, positionsOffered: string,
                statsOffered: string, positionsNeeded: string, statsNeeded: string, comment: string)
    | TradeData(details: string)
    | ClaimData(team: string, player: string, details: string)
    | DropData(players: seq<string>)
    | DraftData(round: string, pick: string, player: string, team: string)
    | RawData(raw: string)                        // `{"raw": text}` when nothing matched

  /** `[p.strip() for p in pieces if p.strip()]`. */
  function KeepStripped(pieces: seq<string>): (r: seq<string>)
    ensures |r| <= |pieces|
    ensures forall k :: 0 <= k < |r| ==> r[k] != [] && Stripped(r[k])
    ensures forall k :: 0 <= k < |r| ==> exists n :: 0 <= n < |pieces| && r[k] == Strip(pieces[n])
  {
    if pieces == [] then []
    else
      var rest := KeepStripped(pieces[1..]);
      var p := Strip(pieces[0]);
      var r := if p != [] then [p] + rest else rest;
      KeptFrom(pieces, rest, p, r);
      r
  }

  lemma KeptFrom(pieces: seq<string>, rest: seq<string>, p: string, r: seq<string>)
    requires pieces != [] && p == Strip(pieces[0]) && r == (if p != [] then [p] + rest else rest)
    requires forall k :: 0 <= k < |rest| ==> exists n :: 0 <= n < |pieces[1..]| && rest[k] == Strip(pieces[1..][n])
    ensures forall k :: 0 <= k < |r| ==> exists n :: 0 <= n < |pieces| && r[k] == Strip(pieces[n])
  {
    forall k | 0 <= k < |r| ensures exists n :: 0 <= n < |pieces| && r[k] == Strip(pieces[n]) {
      if p != [] && k == 0 {
        assert r[0] == Strip(pieces[0]);
      } else {
        var k' := if p != [] then k - 1 else k;
        assert r[k] == rest[k'];
        var n :| 0 <= n < |pieces[1..]| && rest[k'] == Strip(pieces[1..][n]);
        assert pieces[1..][n] == pieces[n + 1];
      }
    }
  }

  /** The clean-up keeps the order of the pieces: it works piece by piece. */
  lemma {:induction false} KeepStrippedConcat(a: seq<string>, b: seq<string>)
    ensures KeepStripped(a + b) == KeepStripped(a) + KeepStripped(b)
  {
    if a != [] {
      var ab := a + b;
      assert ab[1..] == a[1..] + b && ab[0] == a[0];
      KeepStrippedConcat(a[1..], b);
      var p := Strip(a[0]);
      var ra, rab := KeepStripped(a[1..]), KeepStripped(a[1..] + b);
      if p != [] {
        assert KeepStripped(ab) == [p] + rab;
        assert KeepStripped(a) == [p] + ra;
      } else {
        assert KeepStripped(ab) == rab;
        assert KeepStripped(a) == ra;
      }
    } else {
      assert a + b == b;
    }
  }

  /** Pieces that are already stripped and non-empty are kept as they are. */
  lemma {:induction false} KeepStrippedClean(pieces: seq<string>)
    requires forall n :: 0 <= n < |pieces| ==> pieces[n] != [] && Stripped(pieces[n])
    ensures KeepStripped(pieces) == pieces
  {
    if pieces != [] {
      StripStripped(pieces[0]);
      KeepStrippedClean(pieces[1..]);
    }
  }
}
