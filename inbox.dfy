/**
 * The per-message pipeline of transactions/email.py: `_process_single_message`,
 * which classifies one Gmail message, parses it, formats the Discord message and
 * routes it to a webhook, and `process_email`, which runs it over every listed
 * message and archives each one whatever happened to it. The Gmail and Discord
 * calls are the methods of `Services`, which records them; whether a call raises
 * is part of the input.
 */
module Inbox {
  import opened Wrappers
  import opened Text
  import opened Message
  import opened Classify
  import opened Notice
  import opened TradeBlock
  import opened TradeNotice
  import opened PlayerNotices
  import opened Format

  /** What the pipeline takes from outside: the base64url decoder, the text of an
      HTML document, the text of its `darkmode-text` element (with `<br>` turned
      into line breaks; `None` without the element), and the two webhook URLs
      (the empty string when the variable is unset or empty). */
  datatype Env = Env(decode: Decoder, htmlText: string -> string, tradeContent: string -> Option<string>,
                     transactionsUrl: string, tradeBlockUrl: string)

  /** A listed message: its id, the fetched message (`None` when the fetch raised),
      whether the post to Discord succeeds, and whether the first archive call does. */
  datatype Stub = Stub(id: string, message: Option<Payload>, postOk: bool, archiveOk: bool)

  /** What `_process_single_message` does with a fetched message. */
  datatype Plan = Skip | Fail | Send(url: string, text: string, kind: Kind)

  /** What it returns: nothing, a raised exception, or the id and kind it posted. */
  datatype Handled = Skipped | Failed | Done(id: string, kind: Kind)

  /** The pages `process_email` sees from the label lookup and the listing. */
  datatype Listing = LabelMissing | ListFailed(reason: string) | Listed(stubs: seq<Stub>)

  datatype Status = Error(reason: string) | NothingToDo(why: string) | Ok(processed: seq<(string, Kind)>)

  /** The parser of each kind, run on the HTML body. */
  function Parse(env: Env, k: Kind, html: string): (data: Option<Data>)
    ensures k == Unknown ==> data.None?
    ensures k in {Claim, Drop, Draft} ==> data.Some?
  {
    match k
    case Block => ParseTradeBlock(env.htmlText(html))
    case Trade =>
      (match TradeDetails(env.tradeContent(html))
       case None => None
       case Some(d) => Some(TradeData(d)))
    case Claim => Some(ParseClaim(env.htmlText(html)))
    case Drop => Some(ParseDrop(env.htmlText(html)))
    case Draft => Some(ParseDraft(env.htmlText(html)))
    case Unknown => None
  }

  /** A parsed notice always fits its kind, so the formatter never raises on one. */
  lemma ParsedFits(env: Env, k: Kind, html: string)
    ensures Fits(k, Parse(env, k, html))
  {
  }

  /** The webhook of each kind. */
  function Route(env: Env, k: Kind): (url: string)
    ensures url == env.tradeBlockUrl <==> k == Block || env.tradeBlockUrl == env.transactionsUrl
  {
    if k == Block then env.tradeBlockUrl else env.transactionsUrl
  }

  /** The steps of `_process_single_message` after the fetch. */
  function PlanFor(env: Env, p: Payload): (r: Plan)
    ensures Detect(Subject(p)) == Unknown ==> r.Skip?
    ensures r.Fail? <==> Detect(Subject(p)) != Unknown && HtmlBody(p, env.decode).Raised?
    ensures r.Send? ==> r.kind == Detect(Subject(p)) && r.url == Route(env, r.kind) && r.url != ""
    ensures r.Send? <==>
      Detect(Subject(p)) != Unknown && HtmlBody(p, env.decode).Returned? &&
      HtmlBody(p, env.decode).value.Some? && HtmlBody(p, env.decode).value.value != "" &&
      Route(env, Detect(Subject(p))) != ""
  {
    var k := Detect(Subject(p));
    if k == Unknown then Skip
    else match HtmlBody(p, env.decode)
      case Raised => Fail
      case Returned(body) =>
        if body.None? || body.value == "" then Skip
        else
          var data := Parse(env, k, body.value);
          ParsedFits(env, k, body.value);
          var url := Route(env, k);
          if url == "" then Skip else Send(url, DiscordMessage(k, data), k)
  }

  /** The outcome of one message, including the fetch and the post. */
  function Handle(env: Env, s: Stub): Handled {
    match s.message
    case None => Failed
    case Some(p) =>
      match PlanFor(env, p)
      case Skip => Skipped
      case Fail => Failed
      case Send(_, _, k) => if s.postOk then Done(s.id, k) else Failed
  }

  /** The Discord posts one message makes. */
  function Sent(env: Env, s: Stub): seq<(string, string)> {
    match s.message
    case None => []
    case Some(p) =>
      match PlanFor(env, p)
      case Send(url, text, _) => [(url, text)]
      case _ => []
  }

  /** The archive calls one message gets: one, and a second one in the handler
      when the first was made in the `try` block and raised. */
  function Archives(h: Handled, s: Stub): seq<string> {
    if h != Failed && !s.archiveOk then [s.id, s.id] else [s.id]
  }

  /** The outcome of every message, in listing order. */
  function Outcomes(env: Env, stubs: seq<Stub>): (hs: seq<Handled>)
    ensures |hs| == |stubs|
    ensures forall i :: 0 <= i < |stubs| ==> hs[i] == Handle(env, stubs[i])
  {
    if stubs == [] then [] else Outcomes(env, stubs[..|stubs| - 1]) + [Handle(env, stubs[|stubs| - 1])]
  }

  /** The id and kind of every posted outcome, in order. */
  function Posted(hs: seq<Handled>): seq<(string, Kind)> {
    if hs == [] then []
    else
      var rest := Posted(hs[..|hs| - 1]);
      match hs[|hs| - 1]
      case Done(id, k) => rest + [(id, k)]
      case _ => rest
  }

  /** The results `process_email` collects. */
  function Processed(env: Env, stubs: seq<Stub>): seq<(string, Kind)> {
    Posted(Outcomes(env, stubs))
  }

  function AllArchives(env: Env, stubs: seq<Stub>): seq<string> {
    if stubs == [] then [] else AllArchives(env, stubs[..|stubs| - 1]) + Archives(Handle(env, stubs[|stubs| - 1]), stubs[|stubs| - 1])
  }

  function AllSent(env: Env, stubs: seq<Stub>): seq<(string, string)> {
    if stubs == [] then [] else AllSent(env, stubs[..|stubs| - 1]) + Sent(env, stubs[|stubs| - 1])
  }

  function Ids(stubs: seq<Stub>): seq<string> {
    if stubs == [] then [] else Ids(stubs[..|stubs| - 1]) + [stubs[|stubs| - 1].id]
  }

  /** The Gmail and Discord side of the pipeline: what was archived and what was
      posted, in call order. */
  class Services {
    var archived: seq<string>
    var posts: seq<(string, string)>

    constructor ()
      ensures archived == [] && posts == []
    {
      archived := [];
      posts := [];
    }

    /** `messages().modify(... removeLabelIds=["INBOX"])`; `ok` says whether it raised. */
    method Archive(id: string, ok: bool) returns (raised: bool)
      modifies this
      ensures archived == old(archived) + [id] && posts == old(posts)
      ensures raised == !ok
    {
      archived := archived + [id];
      raised := !ok;
    }

    /** `_post_to_discord`: the request is made, then `raise_for_status` may raise. */
    method Post(url: string, text: string, ok: bool) returns (raised: bool)
      modifies this
      ensures posts == old(posts) + [(url, text)] && archived == old(archived)
      ensures raised == !ok
    {
      posts := posts + [(url, text)];
      raised := !ok;
    }

    /** `_process_single_message`: skip, raise, or post and return the id and kind. */
    method ProcessSingleMessage(env: Env, s: Stub) returns (r: Handled)
      modifies this
      ensures r == Handle(env, s)
      ensures posts == old(posts) + Sent(env, s) && archived == old(archived)
    {
      if s.message.None? {
        return Failed;
      }
      var p := s.message.value;
      var k := Detect(Subject(p));
      if k == Unknown {
        return Skipped;
      }
      var body := HtmlBody(p, env.decode);
      if body.Raised? {
        return Failed;
      }
      if body.value.None? || body.value.value == "" {
        return Skipped;
      }
      var data := Parse(env, k, body.value.value);
      ParsedFits(env, k, body.value.value);
      var text := DiscordMessage(k, data);
      var url := Route(env, k);
      if url != "" {
        var raised := Post(url, text, s.postOk);
        if raised {
          return Failed;
        }
        return Done(s.id, k);
      } else {
        return Skipped;
      }
    }

    /** The body of the loop of `process_email` for one message: process it, then
        archive it; when that raises, archive it again in the handler. */
    method ProcessAndArchive(env: Env, s: Stub) returns (r: Handled)
      modifies this
      ensures r == Handle(env, s)
      ensures archived == old(archived) + Archives(r, s) && posts == old(posts) + Sent(env, s)
    {
      r := ProcessSingleMessage(env, s);
      if r == Failed {
        var _ := Archive(s.id, s.archiveOk);
      } else {
        var raised := Archive(s.id, s.archiveOk);
        if raised {
          var _ := Archive(s.id, false);
        }
      }
    }

    /** `process_email`: the listing checks, then every message processed and
        archived, the archive repeated in the handler when the first one raised. */
    method ProcessEmail(env: Env, listing: Listing) returns (status: Status)
      modifies this
      ensures listing.LabelMissing? ==> status == Error("DOO Transaction label not found")
      ensures listing.ListFailed? ==> status == Error(listing.reason)
      ensures listing == Listed([]) ==> status == NothingToDo("no unarchived messages")
      ensures listing.Listed? && listing.stubs != [] ==>
        status == Ok(Processed(env, listing.stubs)) &&
        archived == old(archived) + AllArchives(env, listing.stubs) &&
        posts == old(posts) + AllSent(env, listing.stubs)
      ensures !(listing.Listed? && listing.stubs != []) ==> archived == old(archived) && posts == old(posts)
    {
      match listing
      case LabelMissing =>
        return Error("DOO Transaction label not found");
      case ListFailed(reason) =>
        return Error(reason);
      case Listed(stubs) =>
        if stubs == [] {
          return NothingToDo("no unarchived messages");
        }
        var processed: seq<(string, Kind)> := [];
        assert stubs[..0] == [];
        for i := 0 to |stubs|
          invariant processed == Processed(env, stubs[..i])
          invariant archived == old(archived) + AllArchives(env, stubs[..i])
          invariant posts == old(posts) + AllSent(env, stubs[..i])
        {
          ghost var before, archived0, posts0 := processed, archived, posts;
          var r := ProcessAndArchive(env, stubs[i]);
          Snoc(env, stubs, i);
          PostedOne(r);
          if r.Done? {
            processed := processed + [(r.id, r.kind)];
          }
          assert processed == before + Posted([r]);
          Appended(old(archived), AllArchives(env, stubs[..i]), archived0, Archives(r, stubs[i]), archived);
          Appended(old(posts), AllSent(env, stubs[..i]), posts0, Sent(env, stubs[i]), posts);
        }
        assert stubs[..|stubs|] == stubs;
        return Ok(processed);
    }
  }

  /** One more message: one more result when it was posted, its archive calls
      and its posts. */
  lemma Snoc(env: Env, stubs: seq<Stub>, i: nat)
    requires i < |stubs|
    ensures Processed(env, stubs[..i + 1]) == Processed(env, stubs[..i]) + Posted([Handle(env, stubs[i])])
    ensures AllArchives(env, stubs[..i + 1]) == AllArchives(env, stubs[..i]) + Archives(Handle(env, stubs[i]), stubs[i])
    ensures AllSent(env, stubs[..i + 1]) == AllSent(env, stubs[..i]) + Sent(env, stubs[i])
  {
    assert stubs[..i + 1][..i] == stubs[..i];
    var hs := Outcomes(env, stubs[..i + 1]);
    assert hs[..i] == Outcomes(env, stubs[..i]);
    PostedOne(hs[i]);
  }

  /** A log that grew by `x` still starts with what it held at the start. */
  lemma Appended<T>(start: seq<T>, done: seq<T>, before: seq<T>, x: seq<T>, after: seq<T>)
    requires before == start + done && after == before + x
    ensures after == start + (done + x)
  {
  }

  lemma PostedOne(h: Handled)
    ensures Posted([h]) == if h.Done? then [(h.id, h.kind)] else []
  {
    assert [h][..0] == [];
  }

  /** Every listed message is archived at least once and at most twice. */
  lemma {:induction false} ArchivedOnceOrTwice(env: Env, stubs: seq<Stub>, id: string)
    ensures multiset(Ids(stubs))[id] <= multiset(AllArchives(env, stubs))[id] <= 2 * multiset(Ids(stubs))[id]
    ensures |stubs| <= |AllArchives(env, stubs)| <= 2 * |stubs|
  {
    if stubs != [] {
      ArchivedOnceOrTwice(env, stubs[..|stubs| - 1], id);
    }
  }

  /** The posted outcomes in order: position `j` of the list is outcome `idx[j]`,
      the indexes increase, and every posted outcome has its index among them. */
  lemma {:induction false} PostedInOrder(hs: seq<Handled>) returns (idx: seq<nat>)
    ensures |idx| == |Posted(hs)|
    ensures forall j :: 0 <= j < |idx| ==> idx[j] < |hs| && hs[idx[j]] == Done(Posted(hs)[j].0, Posted(hs)[j].1)
    ensures forall j, l :: 0 <= j < l < |idx| ==> idx[j] < idx[l]
    ensures forall i :: 0 <= i < |hs| && hs[i].Done? ==> i in idx
  {
    if hs == [] {
      idx := [];
    } else {
      var n := |hs| - 1;
      var rest := PostedInOrder(hs[..n]);
      var pf := Posted(hs[..n]);
      var ps := Posted(hs);
      assert forall i :: 0 <= i < n ==> hs[..n][i] == hs[i];
      if hs[n].Done? {
        assert ps == pf + [(hs[n].id, hs[n].kind)];
        idx := rest + [n];
        forall j | 0 <= j < |idx|
          ensures idx[j] < |hs| && hs[idx[j]] == Done(ps[j].0, ps[j].1)
        {
          if j < |rest| {
            assert idx[j] == rest[j] && ps[j] == pf[j];
          }
        }
      } else {
        assert ps == pf;
        idx := rest;
      }
    }
  }

  /** The results are exactly the posted messages, in listing order: position `j`
      of the results is the message at index `idx[j]`, the indexes increase, and
      every posted message has its index among them. */
  lemma ProcessedInOrder(env: Env, stubs: seq<Stub>) returns (idx: seq<nat>)
    ensures |idx| == |Processed(env, stubs)|
    ensures forall j :: 0 <= j < |idx| ==>
      idx[j] < |stubs| && Handle(env, stubs[idx[j]]) == Done(Processed(env, stubs)[j].0, Processed(env, stubs)[j].1)
    ensures forall j, l :: 0 <= j < l < |idx| ==> idx[j] < idx[l]
    ensures forall i :: 0 <= i < |stubs| && Handle(env, stubs[i]).Done? ==> i in idx
  {
    idx := PostedInOrder(Outcomes(env, stubs));
  }

  /** A message of unknown kind, or whose HTML body is missing or empty, is
      skipped: it posts nothing and is not among the results. */
  lemma SkippedMessages(env: Env, s: Stub)
    requires s.message.Some?
    requires Detect(Subject(s.message.value)) == Unknown ||
      HtmlBody(s.message.value, env.decode) in {Returned(None), Returned(Some(""))}
    ensures Handle(env, s) == Skipped && Sent(env, s) == []
  {
  }

  /** A post goes to the trade-block webhook exactly for a trade-block notice,
      never to an unset webhook, and carries the formatted message of the notice. */
  lemma Routed(env: Env, p: Payload)
    requires PlanFor(env, p).Send?
    ensures var plan := PlanFor(env, p);
      plan.url != "" && plan.kind == Detect(Subject(p)) && plan.kind != Unknown &&
      plan.url == (if plan.kind == Block then env.tradeBlockUrl else env.transactionsUrl) &&
      HtmlBody(p, env.decode).Returned? && HtmlBody(p, env.decode).value.Some? &&
      plan.text == DiscordMessage(plan.kind, Parse(env, plan.kind, HtmlBody(p, env.decode).value.value))
  {
  }
}
