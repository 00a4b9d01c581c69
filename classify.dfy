/**
 * The kinds of Fantrax notification e-mail and how a subject line is sorted
 * into one of them (`_detect_transaction_type` in transactions/email.py).
 */
module Classify {
  import opened Text

  datatype Kind = Claim | Drop | Trade | Block | Draft | Unknown

  /** The subject markers in the order the classifier tests them. */
  const Markers: seq<(string, Kind)> := [
    ("player(s) claimed", Claim),
    ("free agents added to pool", Drop),
    ("trade executed", Trade),
    ("trade block changed", Block),
    ("draft pick made", Draft)
  ]

  /** The kind of the first marker of `ms` that occurs in `t`. */
  function FirstMarker(t: string, ms: seq<(string, Kind)>): (k: Kind)
    requires forall n :: 0 <= n < |ms| ==> ms[n].1 != Unknown
    ensures k == Unknown <==> forall n :: 0 <= n < |ms| ==> !Contains(t, ms[n].0)
    ensures k != Unknown ==>
      exists n :: 0 <= n < |ms| && ms[n].1 == k && Contains(t, ms[n].0) &&
        forall m :: 0 <= m < n ==> !Contains(t, ms[m].0)
  {
    if ms == [] then Unknown
    else if Contains(t, ms[0].0) then ms[0].1
    else
      var k := FirstMarker(t, ms[1..]);
      assert forall n :: 1 <= n < |ms| ==> ms[1..][n - 1] == ms[n];
      if k == Unknown then k
      else
        var n :| 0 <= n < |ms[1..]| && ms[1..][n].1 == k && Contains(t, ms[1..][n].0) &&
          forall m :: 0 <= m < n ==> !Contains(t, ms[1..][m].0);
        assert ms[n + 1] == ms[1..][n];
        assert forall m :: 0 <= m < n + 1 ==> !Contains(t, ms[m].0) by {
          forall m | 0 <= m < n + 1 ensures !Contains(t, ms[m].0) {
            if m > 0 { assert ms[m] == ms[1..][m - 1]; }
          }
        }
        k
  }

  /** The classifier: lower-case the subject, then test the markers in order. */
  function Detect(subject: string): Kind {
    var t := Lower(subject);
    if Contains(t, "player(s) claimed") then Claim
    else if Contains(t, "free agents added to pool") then Drop
    else if Contains(t, "trade executed") then Trade
    else if Contains(t, "trade block changed") then Block
    else if Contains(t, "draft pick made") then Draft
    else Unknown
  }

  /** Every marker of `ms` names a real kind. */
  predicate AllKnown(ms: seq<(string, Kind)>) {
    forall n :: 0 <= n < |ms| ==> ms[n].1 != Unknown
  }

  lemma FirstMarkerAt(t: string, ms: seq<(string, Kind)>, k: nat)
    requires k < |ms| && forall n :: 0 <= n < |ms| ==> ms[n].1 != Unknown
    ensures AllKnown(ms[k..]) && AllKnown(ms[k + 1..])
    ensures FirstMarker(t, ms[k..]) ==
      if Contains(t, ms[k].0) then ms[k].1 else FirstMarker(t, ms[k + 1..])
  {
    assert ms[k..][0] == ms[k] && ms[k..][1..] == ms[k + 1..];
  }

  /** The classifier picks the first marker of the table that the lower-cased
      subject contains, and `Unknown` when it contains none. */
  lemma DetectFirstMarker(subject: string)
    ensures forall n :: 0 <= n < |Markers| ==> Markers[n].1 != Unknown
    ensures Detect(subject) == FirstMarker(Lower(subject), Markers)
  {
    var t := Lower(subject);
    var ms := Markers;
    assert ms[0..] == ms && ms[5..] == [];
    FirstMarkerAt(t, ms, 0);
    FirstMarkerAt(t, ms, 1);
    FirstMarkerAt(t, ms, 2);
    FirstMarkerAt(t, ms, 3);
    FirstMarkerAt(t, ms, 4);
  }

  /** The classifier does not look at letter case. */
  lemma DetectIgnoresCase(subject: string)
    ensures Detect(Lower(subject)) == Detect(subject)
  {
    LowerIdempotent(subject);
  }

  /** A subject with both the trade and the trade-block marker (and no earlier one)
      is a trade. */
  lemma TradeBeforeBlock(subject: string)
    requires Contains(Lower(subject), "trade executed")
    requires Contains(Lower(subject), "trade block changed")
    requires !Contains(Lower(subject), "player(s) claimed")
    requires !Contains(Lower(subject), "free agents added to pool")
    ensures Detect(subject) == Trade
  {
  }
}
