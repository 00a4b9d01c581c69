# Fantasy-league transactions and home-run highlights, in Dafny

This project models the two bots of the repository:

- **transactions/email.py.** A Gmail notification from the Fantrax fantasy league
  "The Don Orsillo Open" makes `process_email` list the unarchived messages that
  carry the `DOO Transaction` label. For each message, `_process_single_message`
  does the following:
  - reads the subject and classifies the message as a claim, a drop, a trade, a
    trade-block change or a draft pick;
  - takes the HTML body of the message;
  - runs the parser for that kind;
  - formats a Discord message and posts it to the transactions webhook, or to
    the trade-block webhook for trade-block changes.

  Every listed message is archived afterwards, whatever happened to it.
- **dingers/main.py.** Every few minutes, `main` looks at each live or final MLB
  game and keeps the highlights about a home run (`extract_hr_highlights`). It
  posts each highlight not yet recorded in Firestore to a Discord webhook,
  retrying as `_should_retry_http_error` allows. Then it records the highlight.

The modules follow those two files:

- `Text` holds the Python string operations the code uses: `strip`, `lower`,
  `find`, `split` and `join`, with white space as Python's `str.isspace`.
- `Regex` is a backtracking matcher with the semantics of Python's `re` for the
  constructs in the patterns. `RegexFacts` and `Captures` give each pattern of
  the code a plain meaning, for example "the text between the first `A` and the
  first `B` after it".
- `Message` and `Classify` model reading the subject, classifying the message
  and extracting the HTML body.
- `Notice` holds the parsed data; `TradeBlock`, `TradeNotice` and
  `PlayerNotices` hold the parsers.
- `Format` models the Discord formatting.
- `Inbox` models the message loop and the archiving. Its `Services` class keeps
  the Gmail and Discord calls in the order they were made.
- `Highlights` models the highlight extraction, `Retry` the retry policy, and
  `DingerPost` the message text.
- `Dingers` models the check-post-mark loop of `main`. Its `Bot` class holds the
  store, the requests sent and the post counter.

## Model

| member | source | states |
|---|---|---|
| Classify.FirstMarker | transactions/email.py:40-53 | The kind is `Unknown` exactly when no marker phrase occurs. Otherwise it is the kind of a marker that occurs, and no earlier marker in the list occurs. |
| Classify.DetectFirstMarker | transactions/email.py:40-53 | Classifying a subject gives the kind of the first of the five phrases, in the source's order, that occurs in the lower-cased subject. |
| Classify.DetectIgnoresCase | transactions/email.py:42 | Lower-casing the subject first does not change its kind. |
| Classify.TradeBeforeBlock | transactions/email.py:47-50 | A subject that contains both "trade executed" and "trade block changed", but no claim or drop phrase, is a trade. |
| Message.SubjectIndex | transactions/email.py:293-297 | Finds the first header whose lower-cased name is `subject`, or reports that there is none. |
| Message.HtmlPartIndex | transactions/email.py:67-71 | Finds the first part that is `text/html` with non-empty data, or reports that there is none. |
| Message.HtmlBody | transactions/email.py:56-73 | An HTML payload with data is decoded directly. Otherwise the first HTML part with data is decoded, or the result is no body. A decoding failure is a raised error. |
| Message.FirstHtmlPartIndex | transactions/email.py:67-73 | The loop over the parts decodes the part that `HtmlPartIndex` finds, and returns no body when there is no such part. |
| RegexFacts.LabelledSearch | transactions/email.py:91 | The team pattern matches exactly when some `- ` is followed by at least one non-newline character and then ` has made changes to the Trade Block`. The match is the first such `- `, and group 1 is the shortest such run. |
| RegexFacts.SectionSearch | transactions/email.py:100-104 | A lazy `A:(.*?)B:` search under DOTALL starts at the first `A:` and ends at the first `B:` after it. |
| RegexFacts.UntilOrEndSearch | transactions/email.py:113-114 | `Comment:(.*?)(?:Note that\|$)` captures from the first `Comment:` up to the first `Note that` after it, or up to the end. |
| RegexFacts.PlayerBreakAt | transactions/email.py:116 | `\n+\|\s{2,}` matches at a position exactly when a line break or two white-space characters start there. |
| RegexFacts.PlayerBreakEnd | transactions/email.py:116 | The alternatives are tried in order. A break that starts with a line break is the whole run of line breaks. Any other break is the whole run of white space. |
| RegexFacts.PlayerSplit | transactions/email.py:116 | `re.split(r"\n+\|\s{2,}", s)` equals `BreakPieces`, a character-by-character definition. The pieces are the maximal stretches between break starts, in order, and each break runs as far as its alternative reaches. |
| RegexFacts.AnchoredSearch | transactions/email.py:160-164 | `has been executed\.\s*(.*?)Note that you can adjust` matches at the first anchor. The group runs from after the white space that follows the anchor up to the first closing phrase. |
| RegexFacts.Squeeze | transactions/email.py:208-211 | `re.sub(r"\s+", " ", ...)` equals `SqueezeFrom`, a character-by-character definition: each run of white space becomes one blank where it stood, and every other character stays in place. So the result has no run of white space and keeps the other characters in order. |
| RegexFacts.StampRemoved | dingers/main.py:187-188 | A title that ends in a `(HH:MM:SS)` clock, possibly followed by white space, loses the clock and the white space before it. |
| RegexFacts.StampAbsent | dingers/main.py:187-188 | A title with no clock at its end (a clock followed by nothing but white space) is unchanged by the substitution, whatever clocks it has elsewhere. |
| Notice.KeepStripped | transactions/email.py:116 | Keeps the stripped pieces that are not empty. Each result is non-empty, stripped, and the strip of some input piece. |
| Notice.KeepStrippedConcat | transactions/email.py:116 | Filtering distributes over concatenation, so the order of the pieces is kept. |
| TradeBlock.Section | transactions/email.py:100-104 | `extract_section` always returns a stripped string. |
| TradeBlock.SectionBetween | transactions/email.py:100-104 | A section is the stripped text between the first `heading:` and the first `following:` after it, or empty when either is missing. |
| TradeBlock.SectionGroup | transactions/email.py:101-103 | Group 1 of the section pattern is exactly the text between the two labels. |
| TradeBlock.Comment | transactions/email.py:113-114 | The comment is the stripped text after the first `Comment:`, up to `Note that` or the end. It is empty without `Comment:`. |
| TradeBlock.Team | transactions/email.py:95-98 | The team is the stripped group when that holds no ` - `. Otherwise it is the stripped text after the last ` - `. Either way it is stripped and holds no ` - `. |
| TradeBlock.TeamAfterLeague | transactions/email.py:97-98 | The comment's example: a league name, ` - ` and a team name without dashes give the team name (`The Don Orsillo Open - Grand Salamis` gives `Grand Salamis`). |
| TradeBlock.Players | transactions/email.py:116 | The players are the stripped, non-empty pieces of `BreakPieces`, in order. Each one is a single line without double spaces. |
| TradeBlock.OrNoneSpecified | transactions/email.py:121-124 | An empty section becomes `(None specified)`. A non-empty one is kept, so the result is never empty. |
| TradeBlock.ParseTradeBlock | transactions/email.py:89-126 | No result exactly when there is no team line. Otherwise every field is well formed: a team without ` - `, four non-empty stripped fields, a stripped comment and clean players. |
| TradeNotice.NormalizeLine | transactions/email.py:145 | A normalised line is `SqueezeRef` of the stripped line: each run of spaces becomes one space where it stood. So the line is stripped, has no two spaces in a row, and keeps the other characters of the stripped line in order. |
| TradeNotice.NormalizeDoubleSpace | transactions/email.py:145 | Two words with a double space between them keep one space: ` Mike  Trout ` becomes `Mike Trout`. |
| TradeNotice.NormalizeLines | transactions/email.py:144-145 | Normalises every line and keeps the line count. |
| TradeNotice.CollapseBlankLines | transactions/email.py:147-157 | The loop with `prev_empty` computes `Collapse`. |
| TradeNotice.CollapseNoDoubleBlank | transactions/email.py:147-157 | After collapsing, no two blank lines are adjacent. |
| TradeNotice.CollapseNonBlank | transactions/email.py:147-157 | Collapsing keeps every non-blank line, in order. |
| TradeNotice.CollapseKeepsSingleBlanks | transactions/email.py:147-157 | A list without adjacent blank lines is unchanged, so collapsing is idempotent. |
| TradeNotice.CollapseFrom | transactions/email.py:147-157 | Every collapsed line is a line of the input. |
| TradeNotice.CollapseLast | transactions/email.py:147-157 | The collapsed list ends in a blank line exactly when the input does. |
| TradeNotice.NormalizedTextLines | transactions/email.py:143-158 | The joined text splits back into the collapsed lines. Each line is stripped and single-spaced, no two blank lines are adjacent, and the non-blank lines are those of the normalised input. |
| TradeNotice.AnchoredDetails | transactions/email.py:160-170 | The details, when found, are stripped. |
| TradeNotice.AnchoredDetailsBetween | transactions/email.py:160-170 | The details are the stripped text between `has been executed.` and the first `Note that you can adjust`. Each click text is removed through the next line break, and the result is stripped again. There are no details without both anchors. |
| TradeNotice.ClickSub | transactions/email.py:170 | The click-line `re.sub` equals `DropMarked`, a character-by-character definition. Each click text goes, together with the rest of its line and the line break. A click text with no line break after it stays, along with everything after it. |
| TradeNotice.ClickRemoved | transactions/email.py:170 | For a first click text that a line break follows: the text before it is kept, the click line and its line break go, and the text after the break is cleaned on its own. |
| TradeNotice.ClickKept | transactions/email.py:170 | A first click text with no line break after it leaves the whole text unchanged. |
| TradeNotice.TradeDetailsPlain | transactions/email.py:129-171 | Without a click-here line, the trade details are just the stripped text between the anchors of the normalised text. |
| TradeNotice.ParseTrade | transactions/email.py:129-171 | The parser returns no details without the content element. Otherwise it returns the details of the normalised text. |
| PlayerNotices.ParseClaim | transactions/email.py:174-183 | The raw text is returned exactly when the claim pattern matches nowhere. Otherwise the team and the details are stripped. |
| PlayerNotices.ClaimFields | transactions/email.py:176-181 | A parsed claim's team is on one line. The player is a name and an upper-case surname, joined by one space. |
| PlayerNotices.ParseDrop | transactions/email.py:186-196 | The raw text is returned exactly when the drop pattern matches nowhere. |
| PlayerNotices.DropPlayers | transactions/email.py:194 | The dropped players are non-empty, stripped, single lines. |
| PlayerNotices.ParseDraft | transactions/email.py:199-213 | The raw text is returned exactly when the draft pattern matches nowhere. |
| PlayerNotices.DraftFields | transactions/email.py:201-212 | Round and pick are digit strings equal to their groups. Player and team are stripped and single-spaced, with the same visible characters as their groups. |
| PlayerNotices.SquashFacts | transactions/email.py:208-211 | Squashing a field is `SqueezeRef` of the stripped field: each run of white space becomes one blank where it stood. The result is stripped, has no run of white space and keeps every other character in order. |
| Format.PlayerLines | transactions/email.py:218 | With no players offered, the result is the line `(none)`; it is never empty. |
| Format.FormatTradeBlockMessage | transactions/email.py:216-227 | The step-by-step `msg +=` construction gives `TradeBlockMessage`. |
| Format.TradeBlockTrim | transactions/email.py:216-227 | For a well-formed block, the final `strip` removes only the last line break. The message is its lines joined by line breaks. |
| Format.TradeBlockMessageLines | transactions/email.py:216-227 | For a well-formed block with one-line fields, splitting the message at line breaks gives back exactly its lines. |
| Format.Details | transactions/email.py:242-263 | "" for missing data or an unknown kind. The raw text is the fallback for a claim, drop or draft that did not parse. A parsed trade shows its details as they are. A well-formed trade block shows the joined lines of the block. |
| Format.DropDetailsLines | transactions/email.py:251-254 | Read back line by line, a drop's details are the heading, then one line per player in order (an empty line when there is none). |
| Format.ClaimShown | transactions/email.py:246-248 | A claim's details start with the team in bold and end with the player. |
| Format.DraftShown | transactions/email.py:256-258 | A draft's details contain the team, the player, the round and the pick. |
| Format.DiscordMessage | transactions/email.py:230-265 | The message starts with the emoji that names its kind and ends with a blank line. |
| Format.ReadFormatted | transactions/email.py:230-265 | A Discord message can be read back: its first character gives the kind, and the text between the header and the final blank line is the details. |
| Inbox.Parse | transactions/email.py:310-326 | Unknown kinds parse to nothing. Claims, drops and drafts always parse to something, if only the raw text. |
| Inbox.ParsedFits | transactions/email.py:310-328 | What a kind's parser returns always suits that kind's branch of the formatter. |
| Inbox.Route | transactions/email.py:331 | The trade-block webhook is chosen exactly for trade-block changes, unless the two URLs are the same. |
| Inbox.PlanFor | transactions/email.py:299-336 | A message is sent exactly when its kind is known, its HTML body decodes to a non-empty text and the webhook for its kind is set. An unknown kind is skipped. The message fails exactly when its kind is known and decoding raises. A send goes to the webhook `Route` gives for the detected kind. |
| Inbox.Routed | transactions/email.py:300-336 | A message that is posted has a known kind and a non-empty webhook for its kind. Its text is the formatted parse of its HTML body. |
| Inbox.SkippedMessages | transactions/email.py:300-308 | A message of unknown kind, or one without an HTML body, is skipped and posts nothing. |
| Inbox.Outcomes | transactions/email.py:390-396 | Gives one outcome per listed message, each the outcome of handling that message. |
| Inbox.Services.ProcessSingleMessage | transactions/email.py:283-339 | Returns the outcome `Handle` gives, and posts exactly `Sent` and nothing else. |
| Inbox.Services.ProcessAndArchive | transactions/email.py:393-413 | Archives the message once, and a second time when the archive after a handled message raised. |
| Inbox.Services.ProcessEmail | transactions/email.py:342-415 | A missing label or a failed listing is an error, and an empty listing is skipped; none of these calls Gmail or Discord. Otherwise the status is `ok` with the processed results, and every message's archives and posts happen in listing order. |
| Inbox.ArchivedOnceOrTwice | transactions/email.py:390-413 | Every listed message is archived at least once and at most twice. |
| Inbox.PostedInOrder | transactions/email.py:390-396 | The results are exactly the handled messages, in listing order. |
| Inbox.ProcessedInOrder | transactions/email.py:390-396 | `processed` lists exactly the messages that were posted, each with its id and kind, in listing order. |
| Highlights.ExtractHrHighlights | dingers/main.py:113-158 | The loop computes `HrHighlights`. There are none when the feed raised. |
| Highlights.FromBlockSound | dingers/main.py:124-154 | A block yields only a highlight about a home run, made of its first three lines. |
| Highlights.FromBlockComplete | dingers/main.py:124-154 | A block that starts with a home-run title, a description and a URL yields exactly that highlight. |
| Highlights.KeptInOrder | dingers/main.py:122-154 | The highlights are exactly the blocks that yield one, in feed order. |
| Highlights.KeptSound | dingers/main.py:122-154 | Every highlight kept comes from a block of the feed, is about a home run and carries the game id. |
| Highlights.KeptComplete | dingers/main.py:122-154 | Every block about a home run with at least three lines is kept. |
| Retry.RunFrom | dingers/main.py:170-179 | At most three attempts. Every attempt before the last raised something retryable, and a raised result comes from the third attempt or is not retryable. |
| Retry.RunUnique | dingers/main.py:170-179 | These conditions fix the run completely. |
| Retry.RaisedAtOnce | dingers/main.py:170-179 | An exception that is not retryable is raised again after one attempt. |
| Retry.ShouldRetryAsWritten | dingers/main.py:161-167 | As written, the check holds for no exception: every retryable status makes the response false, so `status_code` is None. |
| Retry.ShouldRetry | dingers/main.py:161-167 | With the intended reading, only an HTTP error that has a response with an error status is retried, and a 503 always is. |
| Retry.Retryable | dingers/main.py:173-177 | A connection error or a timeout is always retried and any other exception never. As written, those two are the only failures retried. |
| Retry.HttpErrorsNeverRetried | dingers/main.py:161-167 | As written, an HTTP error with a 4xx or 5xx response is never retried. The intended check retries 429, 500, 502, 503 and 504. |
| Retry.Flaky503Runs | dingers/main.py:165 | For two 503 answers and then success, the code as written raises after one attempt. The intended check succeeds on the third. |
| Retry.RetriedStatuses | dingers/main.py:161-179 | With the intended check, two retryable statuses followed by success succeed on the third attempt. |
| DingerPost.CleanTitle | dingers/main.py:187-189 | The clean title is stripped. |
| DingerPost.CleanClock | dingers/main.py:187-189 | A title that ends in a clock becomes the stripped text before the clock. |
| DingerPost.CleanNoClock | dingers/main.py:187-189 | A title with no clock at its end is only stripped, even when a clock stands elsewhere in it. |
| DingerPost.CleanSpacedClock | dingers/main.py:186-189 | A stripped title followed by a space and a clock becomes the title alone. |
| DingerPost.CleanSmith | dingers/main.py:186 | The comment's example `Smith homers (02:34:56)` becomes `Smith homers`. |
| DingerPost.CleanTeamInTitle | dingers/main.py:187-189 | A title with a parenthesised team before the clock, `Judge (NYY) homers (02:34:56)`, keeps the team and loses only the clock. |
| DingerPost.ContentLines | dingers/main.py:192-194 | The content is three lines: the bold title under the comet, the description, and the video link. |
| Dingers.PostResult | dingers/main.py:170-199 | Without a webhook there is no post. Otherwise the post returns or raises after one to three attempts. |
| Dingers.Step | dingers/main.py:231-242 | A highlight already in the store changes nothing. Otherwise it is posted, and it is marked unless the post raised. |
| Dingers.Bot.PostToDiscord | dingers/main.py:170-199 | The attempt loop gives `PostResult` and sends one request per attempt. It leaves the store alone. |
| Dingers.Bot.MarkPosted | dingers/main.py:52-71 | Stores the video's document under the run's date and the video's id, and changes nothing else. |
| Dingers.Bot.Handle | dingers/main.py:231-242 | Checks, posts and marks as `Step` states. |
| Dingers.Bot.CheckForDingers | dingers/main.py:218-242 | The nested loops give `RunGames`. |
| Dingers.RunGamesSteps | dingers/main.py:218-242 | The run handles every game's highlights one after another, in order. |
| Dingers.SkippedGame | dingers/main.py:219-227 | A game that is not live or final, or has no id, changes nothing. |
| Dingers.StoreGrows | dingers/main.py:218-242 | The store only grows, and nothing stored is overwritten. |
| Dingers.DeliveredOnce | dingers/main.py:231-242 | No video is delivered twice in a run. Every delivered video was unmarked at the start and is marked at the end. |
| Dingers.FailedPostNotMarked | dingers/main.py:238-242 | A post that raised is not marked, but it still counts as a post. |
| Dingers.MarkedWithoutWebhook | dingers/main.py:182-184 | Without a webhook nothing is sent, yet the video is marked as posted. |

## Left out

- Gmail, OAuth, Pub/Sub, Firestore, the MLB Stats API and the HTTP calls are not modelled as I/O. The model takes their results as inputs:
  - a message's fetched payload, or no payload when the fetch raised;
  - whether each post or archive call raises;
  - the label lookup and the listing;
  - the highlight feed of each game;
  - what each attempt of each post returns or raises.
- BeautifulSoup (`_extract_text_content` and the `darkmode-text` lookup of `_parse_trade`) is a function parameter. The model takes the text of a document, and the text of its content element with `<br>` as a line break.
- The base64url decoding and UTF-8 decoding of bodies is a parameter that either returns the text or fails.
- `_video_doc_id` is a parameter. The model does not include SHA-256, so two URLs with the same digest would share a document, as in the source.
- `Text.Lower`, and the `\w` and `\d` classes, follow Python only for ASCII and Latin-1 letters and digits. Other Unicode letters are unchanged, and other Unicode digits do not count.
- The `maxResults=50` page size is not modelled: the listing is an input.
- The document's `posted_at` and `expires_at` timestamps, the two-day TTL and the 0.5 s wait between attempts are not modelled, because they involve clocks.
- The `print` diagnostics and the HTTP response `main` returns are not modelled, because they have no effect on state.
- `get_games_for_date` is not modelled: the day's games are an input.
- The listing gives, per message, whether the post and the first archive call raise. The model does not say why a call raises.
- `Dingers.Env.calls` gives what each attempt of each post does, indexed by the post's number in the run. A real webhook's answers depend on the time and the content, and the model does not track that.
- Dingers.Step, Dingers.Bot.MarkPosted and Dingers.Bot.CheckForDingers assume that the Firestore calls succeed. In the source, a `mark_video_posted` that raises (dingers/main.py:240) is caught at dingers/main.py:241-242, so the video has been sent but stays unmarked and the loop goes on. A `has_posted_video` that raises (dingers/main.py:235) is outside the `try` and ends `main`. Neither case is modelled.
- Inbox.Services.ProcessEmail assumes that the label lookup succeeds or finds nothing. A `_get_label_id` whose Gmail call raises (transactions/email.py:276, called at transactions/email.py:366) makes `process_email` raise, and the model has no outcome for it.
- `Dingers.Env.check` selects the reading of `_should_retry_http_error`. The source as written is `AsWritten` (see Findings); the intended behaviour is `Intended`.

## Findings

| source | as written | input that shows it | evidently intended | confidence | as-written member | corrected member |
|---|---|---|---|---|---|---|
| dingers/main.py:165 | `exception.response` is tested for truth. A `requests` response is false for every status from 400 to 599, which are exactly the statuses `raise_for_status` raises for, so no HTTP error is ever retried. | Discord answers 503, then 503, then 200: the call raises after the first attempt. | Read `status_code` whenever a response is present (`is not None`), so that 429, 500, 502, 503 and 504 are retried. | not executed | Retry.ShouldRetryAsWritten, Retry.Flaky503Runs, Retry.HttpErrorsNeverRetried | Retry.ShouldRetry, Retry.RetriedStatuses |
