# Content bot decision rules, in Dafny

The content bots read a news feed. They ask a Gemini model to turn one entry
into an HTML blog article, clean that article up, and mail it to a blog's
post-by-mail address. Six versions of the bot are modelled: `main.py`,
`bot_code.py`, `bot_v46_final.py`, `bot_v47_wait.py`,
`bot_v51_architect.py` and `bot_v52_failover.py`. The network, the clock and
randomness are inputs. What is left are small deterministic rules, and this
project states and proves them:

- **Model discovery** (module `Discovery`):
  - v51 keeps the listed models that support `generateContent` and stable-sorts them by a four-level rank. It falls back to `gemini-pro` when the listing is empty or fails.
  - v52 first merges a fixed backup list, using substring "already present" tests, and then sorts the same way.
  - `main.py` takes the first usable Gemini model, provided it can be built.
- **Generation loops** (module `Retry`): one parameterised state machine over (model index, attempt). The API is an oracle that answers the n-th call. The run returns its result together with a trace of every try and the sleep after it.
  - v51 and v47 give each model three attempts. After a quota error they sleep 70 s and retry the same model; any other error moves on to the next model.
  - v47 builds each model outside the `try`, so a build failure escapes the loop.
  - v52 makes one call per model and sleeps 5 s or 2 s after a failure.
  - v46 makes one call per model, sleeps 1 s after any failure, and never aborts.
- **Article clean-up** (modules `PyStr`, `Markers`, `Styles`, `PostProcess`):
  - Python `str.replace` is modelled as leftmost, non-overlapping replacement.
  - The `re.sub` of `((IMG:...))` placeholders uses a lazy group that does not cross newlines.
  - Each bot has its own inline styles. The table rewrites apply only when a `<table>` is present.
- **bot_code.py** (module `BotCode`):
  - the image-injection regex as written, next to the placeholder rewriting it was meant to perform;
  - the three-attempt writer loop;
  - the credential guard on sending;
  - history deduplication that commits only after a successful send;
  - the subject line;
  - one run of `main`, for any placeholder rewriting: `BotCode.Main` uses the regex as written and `BotCode.MainIntended` the intended one.
- **main.py** (module `MainScript`): cleaning of the reply, the two start-up guards, and the single-article run.
- **Titles** (module `Titles`): `clean_rss_title` of bot_v46_final.py.

Modelling choices:

- A listing is the sequence of models yielded, plus a flag saying whether iteration then raised.
- The generation API is `Api(builds, respond)`:
  - `builds(name)` says whether `GenerativeModel(name)` succeeds;
  - `respond(n)` is the outcome of the n-th `generate_content` call of a run.
- `time.sleep` appears as the `slept` field of each trace step.
- `random.choice` indices are parameters, constrained by preconditions to the range Python draws from.
- `urllib.parse.quote` is an opaque function parameter. The only fact the model uses about it is that its output contains no parenthesis and no newline (the `QuoteSafe` predicate in `PostProcess`).

## Model

| member | source | states |
|---|---|---|
| PyStr.ContainsIff | bot_v51_architect.py:52-54 | Python's `p in s` holds exactly when `p` occurs at some index of `s` |
| PyStr.ReplaceAbsent | bot_v51_architect.py:144 | `str.replace` of a pattern that does not occur returns the text unchanged |
| PyStr.ReplacePlainPrefix | bot_v51_architect.py:152-158 | text without the pattern's first character is copied through `str.replace` untouched |
| PyStr.ReplaceClears | bot_v51_architect.py:152-158 | after replacing a pattern by a text that cannot recreate it, alone or across a boundary, the pattern no longer occurs |
| PyStr.ReplaceKeepsAbsent | bot_v51_architect.py:152-158 | a replacement text that cannot create `x` never introduces an occurrence of `x` |
| PyStr.ReplaceKeepsPresent | bot_v46_final.py:105-107 | an occurrence of `x` that no match of the pattern can overlap survives the replacement |
| PyStr.StripFences | bot_v51_architect.py:144 | after removing "```html" and then "```", no "```" is left |
| PyStr.StripFencesIdempotent | bot_v51_architect.py:144 | removing the fences a second time changes nothing |
| PyStr.TrimStart | main.py:54 | the result is a suffix of the input, everything cut off is whitespace, and the result does not start with whitespace |
| PyStr.TrimEnd | main.py:54 | the result is a prefix of the input, everything cut off is whitespace, and the result does not end with whitespace |
| PyStr.Strip | main.py:54 | `strip()` yields a slice of the input with only whitespace around it, and the slice neither starts nor ends with whitespace |
| PyStr.StripUnique | main.py:54 | any slice with only whitespace around it and no whitespace at its ends is the stripped text, so the contract of `Strip` fixes its result |
| PyStr.StripIdempotent | main.py:54 | stripping twice equals stripping once |
| PyStr.StripInfix | main.py:54 | the stripped text occurs inside the original |
| PyStr.StripKeepsAbsent | main.py:54 | stripping cannot create a substring the text lacked |
| PyStr.Before | bot_v46_final.py:38 | `s.split(sep)[0]` is a prefix of `s` without `sep`, no occurrence of `sep` in `s` starts inside it, and it is either all of `s` or followed by `sep`: the cut is at the first separator |
| PyStr.BeforeIdempotent | bot_v46_final.py:38 | cutting at the first separator twice equals cutting once |
| PyStr.BeforeAbsent | bot_v46_final.py:38 | a text without the separator is returned whole |
| Markers.FindCloseFound | bot_v51_architect.py:149 | the lazy group ends at the first closing `))`, and no newline comes before it |
| Markers.FindCloseNone | bot_v51_architect.py:149 | when the lazy search fails, no closing `))` comes before the next newline |
| Markers.FindCloseLeast | bot_v51_architect.py:149 | the first closing literal on the line is the one the lazy group stops at |
| Markers.MatchSplits | bot_v51_architect.py:149 | a match splits the text into the opening literal, a one-line description, the closing literal and the rest |
| Markers.Rewrite | bot_v51_architect.py:149 | `re.sub` over the text: at each position a match is replaced by the replacer's output and the scan resumes after it, otherwise one character is copied; its properties are the `Rewrite…` lemmas below |
| Markers.RewriteAbsent | bot_v51_architect.py:149 | `re.sub` leaves a text without the opening literal unchanged |
| Markers.RewritePlainPrefix | bot_v51_architect.py:149 | text before the first possible marker start is copied unchanged |
| Markers.RewriteSingle | bot_v51_architect.py:149 | a placeholder `open + gap + desc + close`, where `desc` is on one line and no closing literal starts inside it before the one that follows it, is replaced by the replacer's output on `desc`, and the scan resumes after it. For a marker with `\s*`, `gap` is any whitespace run and `desc` starts at the first non-space character. For a marker without it, `gap` is empty |
| Markers.OpenedKept | bot_v51_architect.py:149 | an opening `((IMG:` with no `))` later on its line is copied as it is |
| Markers.NoMarkerLeft | bot_v51_architect.py:149 | when the replacer produces tags without parentheses, no complete placeholder remains after `re.sub` |
| Styles.V51Sound | bot_v51_architect.py:152-158 | no v51 style text can recreate `<p>`, `<h2>`, `<table>`, `td>` or `th>` |
| Styles.V52Sound | bot_v52_failover.py:151-157 | the same for the v52 style texts |
| Styles.V47Sound | bot_v47_wait.py:109-115 | the same for the v47 style texts |
| Styles.V46Sound | bot_v46_final.py:103-107 | the same for v46, which has no `</table>` or `th>` rewrite |
| PostProcess.Style | bot_v51_architect.py:152-158 | the paragraph and heading rewrites, then the table rewrites only when `<table>` occurs; stated by `StyleClears`, `StyleTables` and `StyleSkipsTables` |
| PostProcess.Process | bot_v51_architect.py:144-158 | the whole clean-up: fences, then placeholders, then styles; stated by `ProcessClears` and `NoPlaceholderLeft` |
| PostProcess.StyleClears | bot_v51_architect.py:152-153 | with sound styles, no bare `<p>` or `<h2>` is left after injection, for any text |
| PostProcess.StyleTables | bot_v51_architect.py:154-158 | with a `<table>` present, the table rewrites run, and no bare `<table>`, no `td>` and no `th>` is left |
| PostProcess.StyleSkipsTables | bot_v47_wait.py:111-115 | without a `<table>`, only the paragraph and heading rewrites apply |
| PostProcess.ClosingCellRestyled | bot_v51_architect.py:157 | for any text around it, a closing `</td>` splits the `td>` rewrite in two and becomes `</` followed by the cell style |
| PostProcess.V46KeepsClosingAndHeader | bot_v46_final.py:105-107 | v46 leaves every `</table>` and every `th>` in place |
| PostProcess.ImageReplaced | bot_v51_architect.py:147-149 | a one-line placeholder whose description ends at the first `))` becomes the `<img>` tag whose URL embeds the quoted description, including descriptions that hold a single `)` |
| PostProcess.NoPlaceholderLeft | bot_v52_failover.py:147-149 | no complete `((IMG:...))` placeholder survives the image step |
| PostProcess.ProcessClears | bot_v47_wait.py:101-115 | for each of the four bots, the whole clean-up leaves no bare `<p>` or `<h2>` |
| Discovery.Qualifying | bot_v51_architect.py:41-43 | the kept names are no more than the listed models; membership and order are stated by `QualifyingMembers` and `QualifyingAppend` |
| Discovery.QualifyingAppend | bot_v51_architect.py:41-43 | filtering the listing distributes over concatenation, so listing order is kept |
| Discovery.QualifyingMembers | bot_v51_architect.py:41-43 | a name is kept exactly when some listed model has it and supports `generateContent` |
| Discovery.SortBy | bot_v51_architect.py:51-56 | `list.sort(key=...)` as a stable insertion sort; stated by `SortByCorrect` |
| Discovery.InsertSorted | bot_v51_architect.py:51-56 | inserting into a rank-sorted list keeps it sorted |
| Discovery.InsertBuckets | bot_v51_architect.py:51-56 | inserting before the first element of equal or higher rank keeps each rank's elements in order |
| Discovery.SortByCorrect | bot_v51_architect.py:51-56 | the sort is a permutation, non-decreasing in rank, and stable within each rank |
| Discovery.WorkingModels | bot_v51_architect.py:34-63 | an empty or failing listing gives exactly `['gemini-pro']`; otherwise the result is the stable rank sort of the qualifying names |
| Discovery.CoveredIff | bot_v52_failover.py:55-59 | the inner loop finds a backup exactly when some entry contains it as a substring |
| Discovery.MergeBackups | bot_v52_failover.py:53-61 | the backup loop, appending a backup unless an entry built so far contains it; stated by `MergeBackupsCorrect` and `MergeBackupsInOrder` |
| Discovery.MergeBackupsCorrect | bot_v52_failover.py:53-61 | the merge keeps the discovered names as a prefix, afterwards every backup is covered, and an appended name was a backup not covered before it |
| Discovery.MergeBackupsStep | bot_v52_failover.py:53-61 | handling one more backup appends it exactly when no name in the list built so far contains it, and leaves the list as it is otherwise |
| Discovery.MergeBackupsInOrder | bot_v52_failover.py:53-61 | the appended names are the backup list with some names left out, in the backup list's order |
| Discovery.OptimizedModels | bot_v52_failover.py:34-72 | the final list is the stable rank sort of the merged list |
| Discovery.RankPro15 | bot_v51_architect.py:51-56 | `gemini-1.5-pro` has rank 2 |
| Discovery.RankPro | bot_v51_architect.py:51-56 | `gemini-pro` has rank 3 |
| Discovery.RankPro10 | bot_v51_architect.py:51-56 | `gemini-1.0-pro` has rank 3 |
| Discovery.MergeIntoNothing | bot_v52_failover.py:53-61 | merging the backups into an empty list yields the backup list itself |
| Discovery.SortThree | bot_v52_failover.py:64-69 | a three-element list already in rank order is left as it is |
| Discovery.NothingDiscovered | bot_v52_failover.py:21 | with no qualifying name yielded, including a listing that raises before yielding one, the list is exactly `['gemini-1.5-pro', 'gemini-pro', 'gemini-1.0-pro']` |
| Discovery.GetValidModel | main.py:17-30 | a chosen model can be built, and its name contains `gemini` |
| Discovery.GetValidModelCorrect | main.py:17-30 | a chosen name is the first listed model that supports `generateContent` and contains `gemini`, and it can be built; None exactly when no model yielded qualifies or building the first qualifying one raises |
| Retry.Go | bot_v51_architect.py:85-114 | one step of the generation loop over (model index, attempt), as the policy reacts to each outcome; stated by `GoShape`, `GoEnds` and `GoConsumes` |
| Retry.Loop | bot_v51_architect.py:79-114 | the generation loop from the first model's first attempt; stated by `LoopFacts` and `TriesBound` |
| Retry.GoShape | bot_v51_architect.py:85-112 | every try is of a listed, eligible model within its attempts, and each try follows the previous one as the policy says |
| Retry.GoEnds | bot_v51_architect.py:85-114 | a run ends with a usable response, with an escaping build failure, or with None after nothing was left to try |
| Retry.GoConsumes | bot_v51_architect.py:96 | the n-th call of a run receives the oracle's n-th outcome |
| Retry.LoopFacts | bot_v51_architect.py:79-114 | the whole loop yields a chain of tries whose result is the first usable response |
| Retry.TriesBound | bot_v51_architect.py:92 | no model is tried more often than the policy's attempts |
| Retry.OneEach | bot_v52_failover.py:94-103 | with one attempt per model, the k-th try is of the k-th model, and None means every model was tried |
| Retry.RetryContinues | bot_v47_wait.py:66-72 | a quota error or an empty response with attempts left is always followed by another try |
| Retry.AdaptiveRetry | bot_v51_architect.py:79-114 | `generate_with_adaptive_retry`: the loop with the v51 policy over the discovered list; stated by the `AdaptiveRetry…` lemmas |
| Retry.AdaptiveRetryCalls | bot_v51_architect.py:85-92 | v51 calls only names containing `gemini`, in list order, at most three times each |
| Retry.AdaptiveRetryPauses | bot_v51_architect.py:98-112 | v51 sleeps 70 s exactly after a quota error; a quota error or an empty response with attempts left retries the same model; any other error moves on |
| Retry.AdaptiveRetryResult | bot_v51_architect.py:98-114 | v51 returns the first non-empty response, or None, and never raises |
| Retry.WaitRetry | bot_v47_wait.py:52-77 | `generate_with_retry` of v47: the loop with the v47 policy over the fixed list; stated by the `WaitRetry…` lemmas |
| Retry.WaitRetryCalls | bot_v47_wait.py:22-26 | v47 tries the three fixed models in order, at most three times each |
| Retry.WaitRetryPauses | bot_v47_wait.py:60-76 | v47 sleeps 70 s exactly after a quota error and then retries the same model; any other error leaves it without sleeping |
| Retry.WaitRetryResult | bot_v47_wait.py:55-77 | v47 returns the first non-empty response or None, and raises exactly when building a model failed, which ends the search |
| Retry.FailoverCalls | bot_v52_failover.py:94-114 | with the v52 policy, every model gets at most one call, in list order, followed by 5 s after a quota error, 2 s after any other error, and no sleep otherwise |
| Retry.FastFailover | bot_v52_failover.py:88-116 | `generate_with_fast_failover`: the loop with the v52 policy over the merged list; stated by the `FastFailover…` lemmas |
| Retry.FastFailoverCalls | bot_v52_failover.py:88-114 | the same for the discovered v52 list, so the number of calls is at most the list length |
| Retry.FastFailoverResult | bot_v52_failover.py:101-116 | v52 returns the first non-empty response, and None only after trying every model |
| Retry.NeverAbort | bot_v46_final.py:54-70 | `generate_with_retry` of v46: the loop with the v46 policy over the fixed list; stated by `NeverAbortFacts` |
| Retry.NeverAbortFacts | bot_v46_final.py:54-70 | v46 tries the four fixed models once each, in order, sleeps 1 s after every failure including a build failure, and returns the first non-empty response or None after all four |
| BotCode.InjectAsWritten | bot_code.py:42-69 | the regex as written matches any single one of `I M G : s * ( . ? )`, and the replacer then raises; the text comes back unchanged exactly when none of them occurs |
| BotCode.PlaceholderRaises | bot_code.py:68 | as written, every `[IMG: ...]` placeholder makes the injection raise |
| BotCode.PlaceholderDrawn | bot_code.py:43-48 | with the intended pattern, `[IMG:` followed by any whitespace run and a one-line description without `]`, then `]`, is replaced by the figure for the description. This includes the `[IMG: description]` form the prompt asks for, and the description starts at its first non-space character |
| BotCode.InjectIntended | bot_code.py:43-48 | with the intended pattern, a text without `[IMG:` is unchanged |
| BotCode.AiWriterNoKey | bot_code.py:95-96 | without an API key the writer returns None and makes no call |
| BotCode.Attempts | bot_code.py:127-144 | the three-attempt loop of `ai_writer`; stated by `AttemptsTrace` and `AttemptsResult` |
| BotCode.AiWriter | bot_code.py:94-144 | `ai_writer`: the key guard, the model fallback, then the loop; stated by `AiWriterNoKey` and `AiWriterFacts` |
| BotCode.AttemptsTrace | bot_code.py:127-143 | at most three calls, the k-th on attempt k, and a 2 s sleep exactly after a try that raised |
| BotCode.AttemptsResult | bot_code.py:127-144 | the writer returns the first response that is non-empty and survives processing, and None only after three attempts |
| BotCode.AiWriterFacts | bot_code.py:94-144 | with a key, the writer uses `gemini-flash-latest` or else `gemini-pro`, raises only when neither can be built, and otherwise returns the first processed response within three calls |
| BotCode.AsWrittenNeedsPlainReply | bot_code.py:127-140 | as written, the writer succeeds only on a reply that contains none of the class characters |
| BotCode.SendToBlogger | bot_code.py:71-92 | the server is contacted exactly when all three credentials are present, and the result is True exactly when it was contacted and delivery worked |
| BotCode.Candidates | bot_code.py:159 | the candidates are no more than the feed's entries; membership and order are stated by `CandidatesMembers` and `CandidatesAppend` |
| BotCode.CandidatesAppend | bot_code.py:159 | filtering the feed distributes over concatenation, so feed order is kept |
| BotCode.CandidatesMembers | bot_code.py:159 | an entry is a candidate exactly when it is in the feed and its link is not in the history |
| BotCode.Subject | bot_code.py:170-172 | the subject is one of the five emojis, a space, `【keyword】`, then the title |
| BotCode.RunOnce | bot_code.py:146-180 | one run of `main` for a given placeholder rewriting; stated by `NothingNew`, `RunOnceActs`, `RunOnceHistory` and `RunOnceMail`, and for the rewriting as written by `MainMailsOnlyPlainReplies` |
| BotCode.NothingNew | bot_code.py:159-160 | when every link is already in the history, nothing is picked, sent or recorded |
| BotCode.RunOnceActs | bot_code.py:159-176 | with a new entry, the drawn one of the first three candidates is picked; a mail goes out exactly when the writer returned a non-empty article, and the run is sent exactly when it mailed and the sender returned True |
| BotCode.RunOnceHistory | bot_code.py:159-176 | the picked entry is one of the first three candidates, so its link is new; the history gains exactly that link when sending succeeded and is unchanged otherwise |
| BotCode.RunOnceMail | bot_code.py:166-174 | for any placeholder rewriting, a mail carries the subject line and the writer's non-empty article |
| BotCode.MainMailsOnlyPlainReplies | bot_code.py:127-174 | as written, a run mails an article only when the writer's last reply, without fences, holds none of the class characters, and the article is that text followed by the button |
| MainScript.Clean | main.py:54 | the cleaned reply is the fence-free reply with only whitespace cut from both ends; it contains no "```" and neither starts nor ends with whitespace |
| MainScript.CleanFixpoint | main.py:54 | the cleanup leaves a reply unchanged exactly when it has no fence and no surrounding whitespace |
| MainScript.CleanIdempotent | main.py:54 | cleaning twice equals cleaning once |
| MainScript.AiWriteArticle | main.py:38-57 | the article is None without a model or when the call raises; otherwise it is the reply's fence-free text with only whitespace cut from both ends, and it has no fence and no surrounding whitespace |
| MainScript.MainRun | main.py:76-94 | the run exits with status 1, before reading the feed, exactly when the password is missing or no model was selected; only a non-empty article about the newest entry is mailed, under that entry's title, and the body is that article |
| MainScript.NoPasswordNoRun | main.py:79-81 | without a password the run ends the same way, whatever the listing, the reply and the feed |
| MainScript.NoGeminiNoRun | main.py:83-85 | a listing without a usable Gemini model stops the run before the feed is read |
| MainScript.UnbuildableNoRun | main.py:25-30 | when building the first usable model raises, the run stops before the feed is read, whatever later models the listing holds |
| MainScript.CleanReplyMailed | main.py:87-92 | when the first usable model can be built, a clean, non-empty reply is mailed verbatim under the newest entry's title |
| Titles.CleanRssTitle | bot_v46_final.py:37-38 | the cleaned title is the text before the first dash separator " - ", then before the first pipe separator, with only whitespace cut from both ends; it contains neither separator, occurs inside the input, and has no surrounding whitespace |
| Titles.CleanFixpoint | bot_v46_final.py:38 | a title is its own clean title exactly when it has neither separator and no surrounding whitespace |
| Titles.CleanIdempotent | bot_v46_final.py:38 | cleaning a cleaned title changes nothing |

## Left out

- SMTP and MIME construction (`smtplib`, `MIMEText`, `Header`) are library I/O.
  - The `BotCode` send keeps only its boolean outcome, as a `delivered` parameter.
  - `MainScript.MainRun` records the mail handed to the sender. `send_email` in main.py prints, rather than returns, its failure, so that failure changes nothing in the run.
- `feedparser` fetching and the RSS URL built by `get_dynamic_rss` are network access. The feed is an input sequence of entries.
- `genai.list_models`, `GenerativeModel` and `generate_content` are foreign network calls. They are oracles: a listing value, `builds` and `respond`.
- `time.sleep` is not executed. Its duration is recorded in the trace.
- `random.choice` and `random.randint` are not modelled. Their choices are parameters.
- Logging and environment variables are not modelled. Credentials and keys are `Option<string>`.
- Reading `history.txt` is not modelled. The history is a sequence of links.
  - `BotCode.RunOnceHistory` appends the link as one new entry. A file whose last line lacks its newline would merge the two lines; the model does not reflect this.
- `create_shopee_button`, `get_hero_image` and the prompt templates are constant HTML and prompt text with no decision logic.
  - The button is a parameter of the writer.
  - The hero image and the prompt are not modelled: the oracle ignores the prompt.
- `clean_rss_title` is modelled on its own. bot_v46_final.py's `main` never calls it.
- Python's `re` module is not modelled in general. Only the two placeholder patterns are, through `Markers.Rewrite`.
- Whitespace, for `strip()` and `\s`, is Python's `str.isspace` set as a fixed character predicate (`PyStr.IsSpace`). Unicode database lookups are not modelled.
- Markers.RewriteSingle: requires that no closing literal starts inside the description before the one that follows it (`Markers.NoEarlyClose`), so the lazy group ends exactly there. `((IMG:a)b))` is covered. For `((IMG:a))b))` the lemma applies with description `a` and rest `b))`, which is how Python splits it, and not with description `a))b`.
- PostProcess.ImageReplaced: the same `Markers.NoEarlyClose` condition on the description, for the `))` closing literal.
- BotCode.PlaceholderDrawn: requires a description on one line without `]`. A `]` would end the lazy group early, and `.` does not match a newline.
- Retry.GoConsumes: the oracle is indexed by the call's position in the run. It does not model a server whose answer depends on the model name.
- Discovery.GetValidModelCorrect: `models` is what the listing yielded before any exception. A usable model found before a later exception is returned, because Python returns it before the exception is raised. Hence the "listing raises" case returns None only when no usable model was yielded first.
- MainScript.MainRun: the model is chosen when the module is imported, before the password guard. The model records the choice but not the listing request made before the guard.

## Findings

| source | as written | input that shows it | evidently intended | confidence | as-written member | corrected member |
|---|---|---|---|---|---|---|
| bot_code.py:68 | `re.sub(r'[IMG:s*(.*?)]', replacer, text)` is a one-character class `[IMG:s*(.*?)]` with no capture group, so `match.group(1)` in the replacer raises `IndexError` on the first match | `"[IMG: a cat]"`, or any text containing one of `I M G : s * ( . ? )`: the injection raises, the writer's `try` catches it, sleeps 2 s and retries, and after three such replies `ai_writer` returns None | `\[IMG:\s*(.*?)\]`: each `[IMG: description]` placeholder, as the docstring at bot_code.py:44 describes, becomes the figure drawn for its description | not executed | BotCode.InjectAsWritten | BotCode.InjectIntended |
