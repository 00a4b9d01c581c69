/**
 * The check-post-mark loop of `main` in dingers/main.py: for every live or final
 * game, every home-run highlight whose (date, video document id) is not yet in
 * the store is posted to Discord (with the retry policy), and is marked in the
 * store once the post has not raised.
 */
module Dingers {
  import opened Wrappers
  import opened Text
  import opened Highlights
  import opened Retry
  import opened DingerPost

  /** A game of the schedule: its `abstractGameState` (empty when missing) and its
      `gamePk` (0 when missing). */
  datatype Game = Game(state: string, gamePk: int)

  /** What a marked video's document holds (the timestamps are left out). */
  datatype Doc = Doc(videoUrl: string, title: string, description: string)

  /** What `main` takes from outside: the date of the run, the webhook (empty when
      unset), the retry check, the highlight feed of each game (`None` when fetching
      it raises), the document id of a URL, and `calls(n, k)`, what the `k`-th
      attempt of the `n`-th post of the run does. */
  datatype Env = Env(date: string, webhook: string, check: Check, feed: int -> Option<string>,
                     docId: string -> string, calls: (nat, nat) -> Outcome)

  /** What a call of `post_to_discord` does: return `False` without a webhook,
      return after some attempts, or raise after some attempts. */
  datatype Sent = NoWebhook | Delivered(attempts: nat) | Failed(attempts: nat, failure: Failure)

  /** The run's store, the requests made to Discord, and the number of posts so far. */
  datatype State = State(store: map<(string, string), Doc>, requests: seq<(string, string)>, posts: nat)

  /** `post_to_discord` for the `n`-th post: no request without a webhook,
      otherwise one request per attempt. */
  function PostResult(env: Env, n: nat): (r: Sent)
    ensures env.webhook == "" <==> r.NoWebhook?
    ensures r.Delivered? ==> 1 <= r.attempts <= MaxAttempts
    ensures r.Failed? ==> 1 <= r.attempts <= MaxAttempts
  {
    if env.webhook == "" then NoWebhook
    else
      match Run(env.check, (k: nat) => env.calls(n, k))
      case (a, Returned) => Delivered(a)
      case (a, Raised(f)) => Failed(a, f)
  }

  /** `n` copies of the same request. */
  function Copies(x: (string, string), n: nat): (r: seq<(string, string)>)
    ensures |r| == n && forall k :: 0 <= k < n ==> r[k] == x
  {
    if n == 0 then [] else Copies(x, n - 1) + [x]
  }

  lemma CopiesNext(before: seq<(string, string)>, x: (string, string), n: nat)
    ensures before + Copies(x, n) + [x] == before + Copies(x, n + 1)
  {
  }

  function Requests(env: Env, n: nat, h: Highlight): seq<(string, string)> {
    match PostResult(env, n)
    case NoWebhook => []
    case Delivered(a) => Copies((env.webhook, Content(CleanTitle(h.title), h.description, h.videoUrl)), a)
    case Failed(a, _) => Copies((env.webhook, Content(CleanTitle(h.title), h.description, h.videoUrl)), a)
  }

  function Key(env: Env, h: Highlight): (string, string) {
    (env.date, env.docId(h.videoUrl))
  }

  /** One highlight: skipped when its key is in the store; otherwise posted, and
      marked unless the post raised. */
  function Step(env: Env, st: State, h: Highlight): (r: State)
    ensures Key(env, h) in st.store ==> r == st
    ensures Key(env, h) !in st.store ==>
      r.posts == st.posts + 1 &&
      r.requests == st.requests + Requests(env, st.posts, h) &&
      r.store == (if PostResult(env, st.posts).Failed? then st.store
                  else st.store[Key(env, h) := Doc(h.videoUrl, h.title, h.description)])
  {
    var key := Key(env, h);
    if key in st.store then st
    else
      var reqs := Requests(env, st.posts, h);
      var store := if PostResult(env, st.posts).Failed? then st.store
                   else st.store[key := Doc(h.videoUrl, h.title, h.description)];
      State(store, st.requests + reqs, st.posts + 1)
  }

  function Steps(env: Env, st: State, hs: seq<Highlight>): State {
    if hs == [] then st else Step(env, Steps(env, st, hs[..|hs| - 1]), hs[|hs| - 1])
  }

  /** The highlights `main` looks at for a game: none unless it is live or final
      and has a game id. */
  function GameHighlights(env: Env, g: Game): seq<Highlight> {
    if (g.state == "Live" || g.state == "Final") && g.gamePk != 0 then HrHighlights(env.feed(g.gamePk), g.gamePk)
    else []
  }

  function AllHighlights(env: Env, games: seq<Game>): seq<Highlight> {
    if games == [] then [] else AllHighlights(env, games[..|games| - 1]) + GameHighlights(env, games[|games| - 1])
  }

  /** The whole run: the games in order, the highlights of each in order. */
  function RunGames(env: Env, st: State, games: seq<Game>): State {
    if games == [] then st else Steps(env, RunGames(env, st, games[..|games| - 1]), GameHighlights(env, games[|games| - 1]))
  }

  /** The Discord webhook and the Firestore collection `main` works against. */
  class Bot {
    var store: map<(string, string), Doc>
    var requests: seq<(string, string)>
    var posts: nat

    constructor (store0: map<(string, string), Doc>)
      ensures store == store0 && requests == [] && posts == 0
    {
      store := store0;
      requests := [];
      posts := 0;
    }

    function Snapshot(): State
      reads this
    {
      State(store, requests, posts)
    }

    /** One attempt of the undecorated `post_to_discord`. */
    method Attempt(env: Env, h: Highlight, outcome: Outcome) returns (r: Option<Outcome>)
      modifies this
      ensures env.webhook == "" ==> r.None? && requests == old(requests)
      ensures env.webhook != "" ==>
        r == Some(outcome) &&
        requests == old(requests) + [(env.webhook, Content(CleanTitle(h.title), h.description, h.videoUrl))]
      ensures store == old(store) && posts == old(posts)
    {
      if env.webhook == "" {
        return None;
      }
      var clean := CleanTitle(h.title);
      var content := Content(clean, h.description, h.videoUrl);
      requests := requests + [(env.webhook, content)];
      return Some(outcome);
    }

    /** `post_to_discord` under its retry decorator. */
    method PostToDiscord(env: Env, h: Highlight) returns (r: Sent)
      modifies this
      ensures r == PostResult(env, old(posts))
      ensures requests == old(requests) + Requests(env, old(posts), h)
      ensures store == old(store) && posts == old(posts) + 1
    {
      var n := posts;
      var calls := (k: nat) => env.calls(n, k);
      var content := Content(CleanTitle(h.title), h.description, h.videoUrl);
      var attempts := 1;
      var o := Attempt(env, h, calls(1));
      if o.None? {
        posts := posts + 1;
        return NoWebhook;
      }
      var outcome := o.value;
      while outcome.Raised? && Retryable(env.check, outcome.failure) && attempts < MaxAttempts
        invariant 1 <= attempts <= MaxAttempts
        invariant outcome == calls(attempts)
        invariant Run(env.check, calls) == RunFrom(env.check, calls, attempts)
        invariant requests == old(requests) + Copies((env.webhook, content), attempts)
        invariant store == old(store) && posts == n
        decreases MaxAttempts - attempts
      {
        RunFromStep(env.check, calls, attempts);
        CopiesNext(old(requests), (env.webhook, content), attempts);
        attempts := attempts + 1;
        o := Attempt(env, h, calls(attempts));
        outcome := o.value;
      }
      posts := posts + 1;
      if outcome.Returned? {
        return Delivered(attempts);
      }
      return Failed(attempts, outcome.failure);
    }

    /** `has_posted_video`. */
    function HasPosted(env: Env, h: Highlight): bool
      reads this
    {
      Key(env, h) in store
    }

    /** `mark_video_posted`. */
    method MarkPosted(env: Env, h: Highlight)
      modifies this
      ensures store == old(store)[Key(env, h) := Doc(h.videoUrl, h.title, h.description)]
      ensures requests == old(requests) && posts == old(posts)
    {
      store := store[Key(env, h) := Doc(h.videoUrl, h.title, h.description)];
    }

    /** The body of the inner loop for one highlight. */
    method Handle(env: Env, h: Highlight)
      modifies this
      ensures Snapshot() == Step(env, old(Snapshot()), h)
    {
      if HasPosted(env, h) {
        return;
      }
      var r := PostToDiscord(env, h);
      if !r.Failed? {
        MarkPosted(env, h);
      }
    }

    /** `main`: every game, then every highlight of the game. */
    method CheckForDingers(env: Env, games: seq<Game>)
      modifies this
      ensures Snapshot() == RunGames(env, old(Snapshot()), games)
    {
      ghost var start := Snapshot();
      for i := 0 to |games|
        invariant Snapshot() == RunGames(env, start, games[..i])
      {
        RunGamesNext(env, start, games, i);
        var g := games[i];
        if g.state != "Live" && g.state != "Final" {
          continue;
        }
        if g.gamePk == 0 {
          continue;
        }
        var highlights := ExtractHrHighlights(env.feed(g.gamePk), g.gamePk);
        ghost var before := Snapshot();
        for j := 0 to |highlights|
          invariant Snapshot() == Steps(env, before, highlights[..j])
        {
          StepsNext(env, before, highlights, j);
          Handle(env, highlights[j]);
        }
        assert highlights[..|highlights|] == highlights;
      }
      assert games[..|games|] == games;
    }
  }

  lemma RunGamesNext(env: Env, st: State, games: seq<Game>, i: nat)
    requires i < |games|
    ensures RunGames(env, st, games[..i + 1]) == Steps(env, RunGames(env, st, games[..i]), GameHighlights(env, games[i]))
  {
    assert games[..i + 1][..i] == games[..i];
  }

  lemma StepsNext(env: Env, st: State, hs: seq<Highlight>, j: nat)
    requires j < |hs|
    ensures Steps(env, st, hs[..j + 1]) == Step(env, Steps(env, st, hs[..j]), hs[j])
  {
    assert hs[..j + 1][..j] == hs[..j];
  }

  /** Highlights in two parts are the first part, then the second. */
  lemma {:induction false} StepsAppend(env: Env, st: State, a: seq<Highlight>, b: seq<Highlight>)
    ensures Steps(env, st, a + b) == Steps(env, Steps(env, st, a), b)
    decreases |b|
  {
    if b == [] {
      assert a + b == a;
    } else {
      var n := |b| - 1;
      assert (a + b)[..|a + b| - 1] == a + b[..n];
      StepsAppend(env, st, a, b[..n]);
    }
  }

  /** The run over the games is the run over all their highlights in order. */
  lemma {:induction false} RunGamesSteps(env: Env, st: State, games: seq<Game>)
    ensures RunGames(env, st, games) == Steps(env, st, AllHighlights(env, games))
  {
    if games != [] {
      var n := |games| - 1;
      RunGamesSteps(env, st, games[..n]);
      StepsAppend(env, st, AllHighlights(env, games[..n]), GameHighlights(env, games[n]));
    }
  }

  /** A game that is neither live nor final, or has no id, adds nothing. */
  lemma SkippedGame(env: Env, st: State, games: seq<Game>, g: Game)
    requires !(g.state == "Live" || g.state == "Final") || g.gamePk == 0
    ensures RunGames(env, st, games + [g]) == RunGames(env, st, games)
  {
    assert (games + [g])[..|games|] == games;
  }

  /** The store only grows: nothing is unmarked or overwritten. */
  lemma {:induction false} StoreGrows(env: Env, st: State, hs: seq<Highlight>)
    ensures st.store.Keys <= Steps(env, st, hs).store.Keys
    ensures forall key :: key in st.store ==> Steps(env, st, hs).store[key] == st.store[key]
  {
    if hs != [] {
      StoreGrows(env, st, hs[..|hs| - 1]);
    }
  }

  /** The videos whose post was delivered, in order. */
  function DeliveredUrls(env: Env, st: State, hs: seq<Highlight>): seq<string> {
    if hs == [] then []
    else
      var n := |hs| - 1;
      var before := Steps(env, st, hs[..n]);
      DeliveredUrls(env, st, hs[..n]) +
        (if Key(env, hs[n]) !in before.store && PostResult(env, before.posts).Delivered? then [hs[n].videoUrl] else [])
  }

  /** Within one run no video is delivered twice, and every delivered video was
      not in the store at the start and is in it at the end. */
  lemma {:induction false} DeliveredOnce(env: Env, st: State, hs: seq<Highlight>)
    ensures var d := DeliveredUrls(env, st, hs);
      (forall i, j :: 0 <= i < j < |d| ==> d[i] != d[j]) &&
      (forall u :: u in d ==> (env.date, env.docId(u)) !in st.store &&
                              (env.date, env.docId(u)) in Steps(env, st, hs).store)
  {
    if hs != [] {
      var n := |hs| - 1;
      var h := hs[n];
      var before := Steps(env, st, hs[..n]);
      DeliveredOnce(env, st, hs[..n]);
      StoreGrows(env, before, [h]);
      assert Steps(env, before, [h]) == Step(env, before, h) by {
        assert [h][..0] == [];
      }
      var d0 := DeliveredUrls(env, st, hs[..n]);
      if Key(env, h) !in before.store && PostResult(env, before.posts).Delivered? {
        StoreGrows(env, st, hs[..n]);
        assert h.videoUrl !in d0;
      }
    }
  }

  /** A post that raised leaves the store as it was, and the loop goes on with
      the next highlight. */
  lemma FailedPostNotMarked(env: Env, st: State, h: Highlight)
    requires Key(env, h) !in st.store && PostResult(env, st.posts).Failed?
    ensures Step(env, st, h).store == st.store
    ensures Step(env, st, h).posts == st.posts + 1
  {
  }

  /** Without a webhook nothing is sent, yet the video is marked as posted:
      `main` does not look at the `False` that `post_to_discord` returns. */
  lemma MarkedWithoutWebhook(env: Env, st: State, h: Highlight)
    requires env.webhook == "" && Key(env, h) !in st.store
    ensures Step(env, st, h).requests == st.requests
    ensures Key(env, h) in Step(env, st, h).store
  {
  }
}
