# bsky-deleter core, modelled in Dafny

bsky-deleter deletes a Bluesky account's own posts. The rules are simple. A
post is kept if it is recent, liked enough, reposted enough, or, when the
operator asks, if it carries an image. Every other post is deleted through
the AT Protocol `delete_record` call. Rate-limit errors are retried with
exponential backoff, and consecutive deletions are paced. The operator
supplies the thresholds through interactive prompts that re-ask until an
answer is valid. The operator then confirms the run by typing `DELETE`.

This project models that core in `delete_posts.py`:

- `common.dfy` (module `Common`): the `Option` type. It stands for Python's
  `None`, for counts the server leaves out, and for a console that runs out
  of input.
- `text.dfy` (module `Text`): the string operations the core relies on.
  - `str.strip()` over Python's whitespace set.
  - ASCII `str.lower()`.
  - Substring test.
  - Taking the last `/`-segment of a URI, which is the record key.
  - `int()` on a stripped line, together with its inverse, decimal
    rendering.
- `filter.dfy` (module `Filter`): `filter_posts`.
  - The age in whole days, floored as `timedelta.days` floors.
  - The four keep conditions and the ordered list of reasons.
  - The per-post verdict, and the two output lists in input order.
- `deletion.dfy` (module `Deletion`): `delete_posts`.
  - The remote delete call is an oracle. It answers attempt `k` for the post
    at position `i`.
  - The executor returns one run per post: its outcome, the number of calls
    made and the backoff sleeps taken.
  - It also returns the deleted and failed counts, every request sent, and
    every sleep in milliseconds.
- `prompts.dfy` (module `Prompts`): `get_parameters` and `confirm_deletion`.
  - The console is a finite sequence of answer lines.
  - Each prompt classifies a line as accepted or to be asked again, and
    consumes lines until it accepts one.

Two behaviours of the code worth knowing:

- A kept post lists every condition that protects it. A 5-day-old post with
  10 likes, under a 30-day threshold and a 5-like minimum, is kept with the
  reasons `recent` and `10 likes`, in that order
  (`Filter.ThreePostExample`).
- The threshold prompts say "must be a positive number", but `0` is accepted
  for the number of days too. The model follows the code.

## Model

| member | source | states |
|---|---|---|
| Text.Strip | delete_posts.py:70 | the result has no whitespace at either end, and it is the input with only whitespace removed around it |
| Text.StripOfCore | delete_posts.py:70 | any trimmed string that sits inside the input with only whitespace around it is what strip returns, so strip is characterised uniquely |
| Text.StripIgnoresPadding | delete_posts.py:70 | whitespace typed before or after an answer does not change the stripped answer |
| Text.StripIdempotent | delete_posts.py:70 | stripping twice is stripping once |
| Text.Lower | delete_posts.py:109 | the letter-by-letter ASCII lowering used on the yes/no answers (lines 109 and 123), the cancel words (line 314) and error messages (line 370); its properties are stated by `Text.LowerChar`, `Text.LowerIdempotent` and `Text.LowerStripCommute` |
| Text.LowerChar | delete_posts.py:109 | the result is never an upper-case letter; upper-case ASCII letters map to their lower-case letter and everything else is unchanged |
| Text.LowerIdempotent | delete_posts.py:109 | lowering twice is lowering once |
| Text.LowerStripCommute | delete_posts.py:109 | lowering and stripping commute, so `.strip().lower()` and `.lower().strip()` agree |
| Text.Contains | delete_posts.py:370 | true exactly when the pattern occurs at some position of the text |
| Text.RecordKeyIsLastSegment | delete_posts.py:342-343 | the record key is a suffix of the URI without `/`, and it is either the whole URI or preceded by a `/` |
| Text.RecordKey | delete_posts.py:342-343 | the record key is the part of the URI after its last `/` (the whole URI when it has none); its properties are stated by the two lemmas around this row |
| Text.RecordKeyOfPath | delete_posts.py:342-343 | a URI built as path + `/` + key yields that key back |
| Text.ParseInt | delete_posts.py:71 | a parsed line is non-empty, and a negative value can only come from a leading minus sign |
| Text.ParseIntCharacterised | delete_posts.py:71 | a line is accepted exactly when it is a well-formed numeral (digits, with single underscores only between digits) with an optional `+` or `-` in front, so `-`, `+`, `1_`, `1__0` and `+_1` are rejected; such a line is read as its value with that sign |
| Text.ParseIntRejectsNonNumerals | delete_posts.py:71-77 | `3.5` and `12a` are not read as numbers |
| Text.ShowNat | delete_posts.py:71 | decimal rendering gives a non-empty string of digits |
| Text.NumeralValueOfShowNat | delete_posts.py:71 | reading a rendered natural number back gives the number |
| Text.ParseShowRoundTrip | delete_posts.py:71 | `int(str(n)) == n` for every integer, negative ones included, without the 4300-digit conversion limit (see "Left out") |
| Filter.AgeDays | delete_posts.py:238 | the age is the floor of the elapsed time in days, and it is negative exactly when the post is dated after `now` |
| Filter.LikesOf | delete_posts.py:226 | the like count, 0 when the server omits it (`x or 0`); it feeds `Filter.LikedEnough` and the counts `Filter.Classify` records |
| Filter.RepostsOf | delete_posts.py:227 | the repost count, 0 when the server omits it (`x or 0`); it feeds `Filter.RepostedEnough` and the counts `Filter.Classify` records |
| Filter.IsRecent | delete_posts.py:245 | a post is recent when its age in days is at most the days threshold, so a threshold of 0 keeps only posts less than a day old |
| Filter.LikedEnough | delete_posts.py:247 | likes protect a post only when the likes threshold is positive and the post has at least that many likes |
| Filter.RepostedEnough | delete_posts.py:249 | reposts protect a post only when the reposts threshold is positive and the post has at least that many reposts |
| Filter.ImageProtected | delete_posts.py:251 | an image protects a post only when the operator chose to keep images |
| Filter.KeepReasons | delete_posts.py:243-252 | each reason is present exactly when its condition holds. Like and repost reasons carry the counts. Reasons appear in source order. The list is empty exactly when no condition holds. A zero likes or reposts threshold, or images switched off, never contributes a reason |
| Filter.Classify | delete_posts.py:217-268 | an undated post gets no verdict. A dated post is deleted exactly when all four keep conditions fail. A kept item carries the post's age and counts and exactly the reasons `KeepReasons` gives: one per condition that holds, in the order recent, likes, reposts, images. A delete item carries the post's age and counts |
| Filter.Contribution | delete_posts.py:254-268 | each dated post adds exactly one item, to the list its verdict names; an undated post adds nothing |
| Filter.FilterPosts | delete_posts.py:206-272 | the two lists together have one item per dated post, and every item comes from the input with the verdict of its list |
| Filter.FilterOutputsWellFormed | delete_posts.py:217-268 | no undated post appears, every kept item has a reason, and no post is both kept and deleted |
| Filter.FilterAppend | delete_posts.py:217-268 | posts are judged independently and in order: filtering a concatenation concatenates the two results |
| Filter.FilterSingle | delete_posts.py:217-268 | filtering a single post gives exactly its own verdict |
| Filter.FilterSnoc | delete_posts.py:217-268 | filtering one more post appends that post's verdict to the lists so far |
| Filter.FilterComplete | delete_posts.py:254-268 | every dated input post reaches the list that its verdict names |
| Filter.DeletedIffNoKeepCondition | delete_posts.py:240-268 | an input post is in the delete list exactly when none of the four keep conditions holds, and in the keep list exactly when one does |
| Filter.UndatedSkipped | delete_posts.py:219-223 | a post with an unparseable date drops out without changing the verdicts on the other posts |
| Filter.ExampleRecentLiked | delete_posts.py:245-248 | a 5-day-old post with 10 likes, under a 30-day threshold and 5 likes, is kept for both reasons in that order |
| Filter.ExampleOldWithImage | delete_posts.py:251-252 | a 40-day-old post with no likes but an image is kept only for the image |
| Filter.ExampleOldBare | delete_posts.py:262-268 | a 40-day-old post with no likes and no image is deleted, with its age and counts |
| Filter.FilterThree | delete_posts.py:217-268 | three posts are filtered as the concatenation of their single verdicts |
| Filter.ThreePostExample | delete_posts.py:206-272 | for the three example posts, the first two are kept in input order and the third is the only deletion |
| Deletion.DeleteWithRetry | delete_posts.py:336-389 | every attempt but the last met a rate-limit error, backoffs are 5 s, 10 s, ..., and the last reply settles the outcome. There are at most 3 attempts. Each attempt sends the same request: the account repo, the post collection and the URI's record key |
| Deletion.IsRateLimitError | delete_posts.py:370 | an error counts as a rate limit exactly when its lower-cased text contains `rate` or its text contains `429` |
| Deletion.ValidRun | delete_posts.py:339-389 | the retry policy for one post: 1 to 3 attempts; every attempt but the last met a rate-limit error; backoffs of 5 s, 10 s, ... follow each of them; the last reply is a success (deleted), a rate limit on the third attempt (failed, rate-limited) or another error (failed with that message) |
| Deletion.RequestFor | delete_posts.py:346-351 | each delete call names the account repository, the `app.bsky.feed.post` collection and the record key of the post URI |
| Deletion.ValidRunDeterministic | delete_posts.py:339-389 | the server's replies determine the run: two runs for the same post that follow the policy are identical |
| Deletion.PersistentRateLimit | delete_posts.py:369-382 | a post that is rate-limited on every attempt is tried exactly 3 times, sleeps 5 s then 10 s, and fails as rate-limited |
| Deletion.OtherErrorNotRetried | delete_posts.py:383-389 | an error that is not a rate limit, met on the first attempt, ends the post with one call, no sleep and that error |
| Deletion.FirstAttemptSucceeds | delete_posts.py:346-364 | a first call that succeeds deletes the post with one call and no sleep |
| Deletion.RateLimitIgnoresCase | delete_posts.py:370 | the rate-limit test gives the same answer on the lower-cased message |
| Deletion.CountDeleted | delete_posts.py:353 | the number of deleted posts never exceeds the number of posts attempted |
| Deletion.AppendRun | delete_posts.py:332-393 | adding one post's run extends the deleted count, the request log and the sleep log in the way the loop does |
| Deletion.DeletePosts | delete_posts.py:320-400 | a dry run makes no call and reports nothing. Otherwise there is one policy-following run per post, in order. Deleted plus failed equals the number of posts. The request log is every run's calls in order. The sleep log is each run's backoffs, with a 0.5 s pause between posts |
| Deletion.AllRequests | delete_posts.py:332-389 | the request log of a batch: every run's delete calls in post order; `Deletion.DeletePosts` promises its log equals it, `Deletion.AppendRun` states how one more run extends it and `Deletion.RequestsBounded` bounds its length |
| Deletion.Schedule | delete_posts.py:374-393 | the sleeps of a batch are each post's backoffs in order, with one 0.5 s pause between consecutive posts and none after the last |
| Deletion.NoPacingInBackoffs | delete_posts.py:374-375 | a retry backoff is never as short as the 0.5 s pacing pause |
| Deletion.PacingBetweenPosts | delete_posts.py:391-393 | a batch of n posts pauses for pacing exactly n - 1 times, so never after the last post |
| Deletion.RequestsBounded | delete_posts.py:336-339 | a batch never sends more than three delete calls per post |
| Prompts.BlankStrip | delete_posts.py:70 | a line is all whitespace exactly when stripping empties it |
| Prompts.ThresholdReply | delete_posts.py:68-78 | a line is accepted exactly when, once stripped, it reads as a non-negative integer, and the accepted value is that integer; a blank line is asked again |
| Prompts.YesNoReply | delete_posts.py:108-119 | once stripped and lowered, the line means yes exactly when it is empty, `y` or `yes`, and no exactly when it is `n` or `no`; anything else is asked again, and a blank line means yes |
| Prompts.ConfirmReply | delete_posts.py:310-317 | the answer confirms exactly when the stripped line is `DELETE`, and declines exactly when it is otherwise a cancel word (`n`, `no`, `cancel`, `exit`) once lowered; anything else, a blank line included, is asked again |
| Prompts.CancelWord | delete_posts.py:314 | the words that cancel, compared after lower-casing: `n`, `no`, `cancel`, `exit` |
| Prompts.Ask | delete_posts.py:68-78 | the prompt settles on the first line its classifier accepts, after rejecting every earlier line; it has no answer exactly when every remaining line is rejected |
| Prompts.AskFindsFirst | delete_posts.py:68-78 | given a line that is accepted after only rejected lines, the prompt answers with that line's value and resumes after it |
| Prompts.AskSkipsRejected | delete_posts.py:76-77 | a rejected line is read past without effect |
| Prompts.ConfirmDeletion | delete_posts.py:305-317 | a confirmation means some line was exactly `DELETE` after stripping; there is no answer exactly when every line was rejected |
| Prompts.ShowIntTrimmed | delete_posts.py:70-71 | a rendered number has no surrounding whitespace |
| Prompts.ThresholdOfNumber | delete_posts.py:68-78 | a number typed with any surrounding whitespace is accepted as that number when it is not negative, and is asked again when it is |
| Prompts.YesNoIgnoresPadding | delete_posts.py:109 | whitespace around a yes/no answer does not matter |
| Prompts.YesNoIgnoresCase | delete_posts.py:109 | a yes/no answer means the same in any letter case |
| Prompts.ConfirmIgnoresPadding | delete_posts.py:311 | whitespace around the confirmation does not matter |
| Prompts.ConfirmNeedsCapitals | delete_posts.py:311-317 | `delete` in lower case, with any padding, neither confirms nor cancels |
| Prompts.LowercaseDeleteRejected | delete_posts.py:312-317 | the bare line `delete` is asked again |
| Prompts.CancelIgnoresCase | delete_posts.py:314-315 | a cancel word declines in any letter case, whereas confirmation is case-sensitive |
| Prompts.ConfirmFirstDecisive | delete_posts.py:310-317 | the confirmation ends on the first decisive line, and it goes ahead exactly when that line is `DELETE` |
| Prompts.ParametersFromFiveAnswers | delete_posts.py:63-149 | five acceptable lines in a row give exactly the thresholds and switches they spell out |
| Prompts.GetParameters | delete_posts.py:63-149 | the five parameter prompts on a fresh console, in order: days, likes, reposts, keep images, dry run; it needs at least five lines, `Prompts.ParametersNeedEveryPrompt` states that it has a result exactly when all five prompts accept a line, and `Prompts.ParametersFromFirstAccepted` states which lines its values come from |
| Prompts.GetParametersFrom | delete_posts.py:63-149 | the five prompts starting at a given line, each continuing after the line the previous one settled on; it needs five lines from there on and a line the days prompt accepts, and `Prompts.ParametersShift` and `Prompts.RejectedFirstAnswer` state how it reads past rejected lines |
| Prompts.AskLikes | delete_posts.py:80-131 | the prompts after the days threshold; it keeps the days value, needs four lines and has a result only when the likes prompt accepts a line, and `Prompts.LikesFromFirstAccepted` states the value it reads |
| Prompts.AskReposts | delete_posts.py:94-131 | the prompts after the likes threshold; it keeps the days and likes values, needs three lines and has a result only when the reposts prompt accepts a line, and `Prompts.RepostsFromFirstAccepted` states the value it reads |
| Prompts.AskImages | delete_posts.py:108-131 | the two yes/no prompts; it keeps the three thresholds, needs two lines and has a result only when the images prompt accepts a line, and `Prompts.ImagesFromFirstAccepted` states the values it reads |
| Prompts.AskDryRun | delete_posts.py:122-131 | the last prompt; it keeps the criteria read so far, needs one line and has a result exactly when the dry-run prompt accepts a line, so no dry-run setting is made up; and `Prompts.DryRunFromFirstAccepted` states the value it reads |
| Prompts.DryRunFromFirstAccepted | delete_posts.py:122-131 | the dry-run setting is the value of the first line the dry-run prompt accepts |
| Prompts.ImagesFromFirstAccepted | delete_posts.py:108-131 | keep-images is the first line the images prompt accepts, and dry-run the first accepted after it; the thresholds already read are kept |
| Prompts.RepostsFromFirstAccepted | delete_posts.py:94-131 | the reposts threshold is the first line its prompt accepts, and the later prompts continue after that line |
| Prompts.LikesFromFirstAccepted | delete_posts.py:80-131 | the likes threshold is the first line its prompt accepts, and the later prompts continue after that line |
| Prompts.ParametersFromFirstAccepted | delete_posts.py:63-149 | whatever lines are rejected along the way, each of the five parameters is the value of the first line its prompt accepts after the line the previous prompt settled on |
| Prompts.ParametersNeedEveryPrompt | delete_posts.py:63-149 | the session has parameters exactly when each of the five prompts in turn accepts a line; when the answers run out first there are none, and no default is made up for a missing answer |
| Prompts.AskShift | delete_posts.py:68-78 | one extra line in front moves the accepted answer one line later and leaves its value alone |
| Prompts.ParametersShift | delete_posts.py:63-149 | one extra line in front, read past, leaves the parameters as they were |
| Prompts.ParametersSkipRejected | delete_posts.py:68-78 | a line the days prompt rejects does not affect the parameters |
| Prompts.RejectedFirstAnswer | delete_posts.py:68-78 | a rejected first answer leaves the whole parameter session as it would be without it |

## Left out

- `authenticate`, `fetch_posts`, `get_credentials`, `setup_logging`,
  `preview_deletions` and `main` are network, credential, logging and console
  plumbing. `main`'s `[y/N]` proceed prompt, its exit codes and its interrupt
  handling are also left out.
- Date parsing (`datetime.fromisoformat`) is left out. A post's `createdAt`
  is either seconds since the epoch or `None` when the date does not parse.
  The subtraction with a naive datetime that Python would reject is not
  modelled.
- Image detection from the embed type (`delete_posts.py:229-235`) is left
  out. `hasImages` is an input.
- The filter's clock is one `now` for all posts. The source reads the clock
  again for every post, so the ages in one run could straddle a day
  boundary.
- `cutoff_date` and the criteria log line in `filter_posts` are left out:
  the cutoff is computed but never used.
- Log lines, progress output and the audit text of each post are left out.
  The post text is not part of `Post`, since it is only printed and logged.
- `delete_posts` returns nothing: its counts and each post's fate are only
  printed and logged. The model's executor returns the per-post runs, the
  deleted and failed counts, the request log and the sleep log so that the
  retry and pacing policy can be stated about them.
- Sleeping is left out: the executor returns the sleep durations instead of
  waiting.
- Deletion.DeleteWithRetry: an exception raised after a successful
  `delete_record` (for instance while logging) would re-enter the retry
  logic in the source. The model treats a successful call as final.
- Text.Lower: only ASCII letters are lowered. This is exact for every
  comparison the core makes: the answer words, `rate` and `429`. For a
  rate-limit message with non-ASCII text, Python's full Unicode lowering is
  not modelled.
- Text.ParseInt: ASCII digits only. `int()` also accepts other Unicode
  decimal digits. The integer string conversion length limit of CPython
  3.11 and later (and of the 3.7 to 3.10 security releases) is not
  modelled: `int()` raises ValueError on a line of more than 4300 digits,
  which the prompt at `delete_posts.py:76` catches and asks again, whereas
  the model accepts such a line.
- Text.ParseShowRoundTrip: `str(n)` raises the same ValueError for an
  integer of more than 4300 digits, so the round trip holds in the program
  only for integers below that size; the model states it for every
  integer.
- The prompt loops run over a finite sequence of answer lines. Running out
  of lines gives `None`, where the program would raise on end of input and
  stop.
