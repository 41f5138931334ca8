# Tripbot, modelled and proved in Dafny

Tripbot runs a 24/7 dashcam stream: it repairs the GPS track of the footage,
resolves chat commands, draws text overlays over the video and reports its own
errors. This project models the parts of it where state, order and arithmetic
interact, and proves what they promise over every input and every run.

`dafny verify dfyconfig.toml` checks everything.

Each part follows one pattern: functions on values say what the code computes, a
class or a method with loops does it in place and is proved equal to them, and
lemmas about the functions state what the part is for.

| part | files |
|---|---|
| GPS outlier repair | `BackfillCoords`, `BackfillCoordsPass` (the arrays and loops), `BackfillCoordsLaws`, `Corpus` |
| Inline markdown for overlays | `InlineMarkdown`, `InlineMarkdownLaws`, `InlineMarkdownHtml` (the HTML, letter by letter) |
| Edit distance and fuzzy lookup | `EditDistance`, `Fuzzy` |
| Command lookup and its record | `Words`, `CommandLookup`, `CommandLookupLaws`, `CommandRecording` |
| Sentry throttle, report cooldown | `RateLimits`, `RateLimitsLaws` |
| Overlays and the middle text | `Onscreen`, `MiddleText`, `MiddleTextLaws` |
| Clip-data feed | `LocationFeed`, `LocationFeedHistory` (when it asks and what it shows, from its history) |
| Miles driven | `MilesDriven` |
| The !find picker | `FindPicker`, `Decimal` |

How the model reads the code:

- Coordinates, distances and speeds are reals; the distance between two points
  is a function that the theorems leave open. An implied speed of NaN or +Inf is
  a case of its own type. Times and durations are integers of nanoseconds.
- Strings are sequences of characters. Go's case tables, spaces and letters, and
  the table of state names, are parameters (`Words.Tables`), constrained only by
  what the proofs need of the space and the exclamation mark.
- A loop over a Go map picks its next key with an arbitrary choice, so what is
  proved about it holds in every order.
- The three regular expressions are leftmost scanners, proved to find exactly
  the matches of their patterns.
- The middle text is a state machine over what runs under its lock, the sweep,
  the runtime queueing a fired timer's callback, and restart plus restore as one
  step. A callback that is already queued runs later whatever became of its timer.
- The clock, the geocoder, the weather archive, whether a publish was delivered,
  whether a restart could read the stream and the random roll are parameters of
  the operations that use them.
- A command's handler is the sequence of refusals it records from inside its own
  body; !guess is one instance, and !report refuses by its own history.

Where the code and its comments disagree, the model follows the code:

- `cmd/backfill-coords/backfill-coords.go:217-221` says that one run fully
  converges. A run whose first detection sweep rejects nothing stops right after
  filling holes and never judges a fix against them. `ConvergedIff` says exactly
  when the claim holds and `UnjudgedAfterFill` is a run where it does not.
- `cmd/backfill-coords/backfill-coords.go:107-111` says that a rejected fix
  without good neighbours is cleared. The code keeps it, flagged. `SuspectKept`
  is a run that keeps one, and `RejectedFate` and `SuspectKeptIff` say exactly
  when that happens.
- `pkg/errors/errors.go:112-115` says that every fingerprint left when the window
  rolls is past its cooldown. `RollForgetsIff` says exactly when that holds,
  `RollKeepsRecent` which fingerprints stay otherwise, and `RollKeepsOne` is a
  run where one does; the bound on the map counts them.
- `pkg/onscreens-server/middle-state.go:104-108` describes the restore of text
  and visibility. A pending auto-hide is not restored, so a text shown for a
  limited time stays up after a restart: `AutoHideLost` is such a run, and
  `TimedTextComesDownIff` says exactly when a timed text does come down.

## Model

| member | source | states |
|---|---|---|
| `BackfillCoordsLaws.ConvergedWhenSomethingRejected` | cmd/backfill-coords/backfill-coords.go:240-309 | when a run rejected at least one fix, its result is a fixed point of both sweeps: no hole can be filled, and no surviving original fix meets the gap, excursion, detour and speed test against its current nearest anchors |
| `BackfillCoordsLaws.ConvergedIff` | cmd/backfill-coords/backfill-coords.go:217-221 | exactly when the result is a fixed point of detection: the first sweep rejected something, or no judged original fix spikes against its two immediate neighbours once the holes beside it are placed on the line between their anchors |
| `BackfillCoordsLaws.UnjudgedAfterFill` | cmd/backfill-coords/backfill-coords.go:306-308 | a concrete four-clip run that rejects nothing, fills a hole, and stops with a fix that a further sweep would reject |
| `BackfillCoordsLaws.FlaggedIffFirstSweepRejects` | cmd/backfill-coords/backfill-coords.go:306-308 | some clip ends flagged as an outlier if and only if the first detection sweep rejects something |
| `BackfillCoordsLaws.NoFillableHoleLeft` | cmd/backfill-coords/backfill-coords.go:281-304 | in every run, no run of holes bracketed by anchors within maxInterpGap is left unfilled, and filling again changes nothing |
| `BackfillCoordsLaws.HoleFate` | cmd/backfill-coords/backfill-coords.go:240-304 | from any state a run can reach, a clip that a detection sweep leaves without a fix ends synthesized if and only if that same sweep leaves it anchors on both sides within the gap: later rounds neither fill nor reopen it |
| `BackfillCoordsLaws.RejectedFate` | cmd/backfill-coords/backfill-coords.go:273-304 | a rejected fix is replaced if and only if the sweep that rejects it leaves it anchors on both sides within the gap; otherwise its stored row is kept as it was, flagged |
| `BackfillCoordsLaws.SuspectKeptIff` | cmd/backfill-coords/backfill-coords.go:320-324 | a run keeps a rejected coordinate exactly when some round rejects the clip and leaves it without anchors within the gap |
| `BackfillCoordsLaws.SuspectKept` | cmd/backfill-coords/backfill-coords.go:320-324 | a concrete three-clip run that keeps a rejected coordinate: its anchors are forty minutes apart where thirty are allowed |
| `BackfillCoordsLaws.FlaggedInSomeRound` | cmd/backfill-coords/backfill-coords.go:250-279 | every clip that ends flagged was rejected in one of the rounds |
| `BackfillCoordsLaws.MissingFate` | cmd/backfill-coords/backfill-coords.go:284-327 | a clip without a fix is synthesized if and only if the first detection sweep leaves it anchors on both sides within the gap, and is left missing otherwise |
| `BackfillCoordsLaws.FinalInvariant` | cmd/backfill-coords/backfill-coords.go:222-331 | in the state every run ends in: a clip stands on its own fix exactly when it had one and was not rejected, holes and rejected clips alone carry synthesized values, and for clips in film order every coordinate lies in the bounding box of the original fixes |
| `BackfillCoordsLaws.DecisionsAreSafe` | cmd/backfill-coords/backfill-coords.go:311-329 | a coordinate is written only over a missing or rejected clip, inside the box of the original fixes, with the state of a strictly earlier original fix; every other stored coordinate stays, a rejected one that could not be replaced included |
| `BackfillCoordsLaws.WrittenOnTheLine` | cmd/backfill-coords/backfill-coords.go:284-319 | every coordinate written: some sweep left the clip between two anchors within the gap, the clip is as far along the line between them as along their film time, in latitude and longitude alike, with the state of the earlier one; and each anchor is a stored fix or another clip as this run writes it |
| `BackfillCoordsLaws.WrittenBetweenFixes` | cmd/backfill-coords/backfill-coords.go:284-319 | in a run that rejects nothing, from the rows alone: a written clip has no fix and goes on that line between the nearest stored fixes around it, which are within the gap, and nothing else of its row changes |
| `BackfillCoordsLaws.SynthesizedForGood` | cmd/backfill-coords/backfill-coords.go:252-254 | once a clip is synthesized no later round moves it |
| `BackfillCoordsLaws.DecisionSpeeds` | cmd/backfill-coords/backfill-coords.go:268-269 | the speeds reported for a clip are those of the last sweep that judged it, into it from its previous anchor and out of it to its next one, or not measured when none did |
| `BackfillCoordsLaws.RejectedMeans` | cmd/backfill-coords/backfill-coords.go:255-278 | a clip is rejected exactly when it still has its own fix, its nearest anchors are both within the gap, it lies further than the spike limit from the previous one, the detour exceeds the ratio and the miles exceed what the speed limit allows in the time |
| `BackfillCoordsLaws.EndpointsSurvive` | cmd/backfill-coords/backfill-coords.go:255-259 | the first and the last original fix of a corpus are never rejected and never replaced |
| `BackfillCoordsLaws.FlaggedReportsItsSpeed` | cmd/backfill-coords/backfill-coords.go:268-278 | the inbound speed reported for a flagged clip exceeds the limit it was rejected by; no later round overwrites it |
| `BackfillCoordsLaws.RejectedOnce` | cmd/backfill-coords/backfill-coords.go:251-278 | a clip that a sweep rejects was never rejected before in that run |
| `BackfillCoordsLaws.RoundsBounded` | cmd/backfill-coords/backfill-coords.go:240-309 | every round but the last strictly lowers the number of clips standing on their own fix, so there are at most original fixes plus one rounds |
| `BackfillCoordsLaws.QuietIffNoneRejected` | cmd/backfill-coords/backfill-coords.go:250-279 | the in-order sweep, in which a rejection changes the anchors of later clips, rejects nothing exactly when no clip judged against the sweep's starting state is rejected |
| `BackfillCoordsLaws.InterpWithin` | cmd/backfill-coords/backfill-coords.go:368-377 | interpolation between two anchors stays inside any box that holds both |
| `BackfillCoordsLaws.InterpIsLinear` | cmd/backfill-coords/backfill-coords.go:368-377 | the interpolated point's share of the way between its anchors is its share of the film time, in both coordinates, and meets the anchors at their own times |
| `BackfillCoordsLaws.SpeedIsDistanceOverTime` | cmd/backfill-coords/backfill-coords.go:353-366 | implied speed times hours is the distance, whichever fix comes first; with equal times it is zero for no move and infinite for any other |
| `BackfillCoordsPass.Analyze` | cmd/backfill-coords/backfill-coords.go:222-331 | the loop over the mutable slices terminates and returns the decisions of the round-by-round specification; and every synthesized clip in its output is written with the point, linear in film time, between its two anchors in the sweep that filled it, and the state of the earlier one |
| `BackfillCoordsPass.Workspace.DetectPass` | cmd/backfill-coords/backfill-coords.go:250-279 | the in-place detection loop, rejecting as it goes, computes the detection step clip by clip and counts its rejections |
| `BackfillCoordsPass.Workspace.FillPass` | cmd/backfill-coords/backfill-coords.go:284-304 | the in-place interpolation loop over runs of holes equals filling each hole on its own from the anchors around it before the loop |
| `BackfillCoordsPass.Workspace.FillRun` | cmd/backfill-coords/backfill-coords.go:297-303 | the inner loop fills one run of holes from its two anchors and touches no other clip |
| `BackfillCoordsPass.Workspace.PrevTrue` | cmd/backfill-coords/backfill-coords.go:333-341 | the nearest anchor before a clip, or -1 |
| `BackfillCoordsPass.Workspace.NextTrue` | cmd/backfill-coords/backfill-coords.go:343-351 | the nearest anchor after a clip, or -1 |
| `BackfillCoordsPass.Workspace.Decisions` | cmd/backfill-coords/backfill-coords.go:311-329 | one decision per clip, in order, from the final slices |
| `Corpus.ByCorpus` | cmd/backfill-coords/backfill-coords.go:201-212 | the runs concatenate to the clips, each run is non-empty and of one corpus, and neighbouring runs are of different corpora |
| `Corpus.OneRunPerCorpus` | cmd/backfill-coords/backfill-coords.go:201-212 | when clips of one corpus are adjacent, as the query orders them, no corpus is split over two runs |
| `InlineMarkdownLaws.RenderIsWellNested` | pkg/onscreens-server/markdown.go:36-59 | for every input the HTML is well nested: a code element holds no tag, a strong element holds none, an em element holds only whole strong elements, and every angle bracket belongs to an emitted tag |
| `InlineMarkdownHtml.CodeHtml` | pkg/onscreens-server/markdown.go:41-48 | text between the first two backticks is rendered between <code> and </code>, escaped and otherwise as it is, with what is before and after it rendered on its own |
| `InlineMarkdownHtml.BoldHtml` | pkg/onscreens-server/markdown.go:55-56 | text between the first two double asterisks is rendered between <strong> and </strong>, and the rest on its own |
| `InlineMarkdownHtml.ItalicHtml` | pkg/onscreens-server/markdown.go:57 | text between the first two single asterisks is rendered between <em> and </em>, and the rest on its own |
| `InlineMarkdownHtml.NestedHtml` | pkg/onscreens-server/markdown.go:53-59 | bold inside italic is rendered as a strong element inside an em element |
| `InlineMarkdownHtml.PlainHtml` | pkg/onscreens-server/markdown.go:36-37 | text without markers is only escaped |
| `InlineMarkdownHtml.EscapeIsLiteral` | pkg/onscreens-server/markdown.go:36-37 | escaping writes the five special characters as their entities, leaves every other one and works character by character |
| `InlineMarkdownLaws.RenderRoundTrip` | pkg/onscreens-server/markdown.go:36-59 | putting each tag of the output back to its marker gives exactly the escaped input, and unescaping that gives the input |
| `InlineMarkdownLaws.StrippedTextIsKept` | pkg/onscreens-server/markdown.go:36-59 | deleting the tags keeps every character of the input other than backticks and asterisks, in order |
| `InlineMarkdownLaws.RenderIsInjective` | pkg/onscreens-server/markdown.go:36-59 | two inputs that render alike are equal |
| `InlineMarkdownLaws.CodeIsLiteral` | pkg/onscreens-server/markdown.go:33-51 | code is taken literally: the texts of the code elements are, one by one, what the successive code matches of the escaped input capture, and there is no other code element |
| `InlineMarkdownLaws.EmphasisCounts` | pkg/onscreens-server/markdown.go:53-59 | a code-free segment gets one strong element per bold match, and one em element per italic match of what the bold pass left |
| `InlineMarkdownLaws.ReplaceKeepsText` | pkg/onscreens-server/markdown.go:55-59 | one replacement pass keeps every character and every tag already there, also when earlier tags stand inside its matches |
| `InlineMarkdownLaws.ItalicNests` | pkg/onscreens-server/markdown.go:53-59 | the italic pass over the bold pass's output never puts an em across a strong boundary |
| `InlineMarkdownLaws.UnescapeInverts` | pkg/onscreens-server/markdown.go:36-37 | unescaping the five entities inverts escaping |
| `InlineMarkdown.MatchEndIsRight` | pkg/onscreens-server/markdown.go:14-22 | the scanner's match at a position is the one match of the pattern there |
| `InlineMarkdown.FindIsLeftmost` | pkg/onscreens-server/markdown.go:14-22 | no match of the pattern starts before the one the scanner finds, and when it finds none there is none |
| `InlineMarkdown.FindAllInOrder` | pkg/onscreens-server/markdown.go:41-48 | successive matches are in order and disjoint |
| `InlineMarkdown.FindAllTakesEverything` | pkg/onscreens-server/markdown.go:41-48 | every match of the pattern is taken or starts inside one that is |
| `InlineMarkdown.RenderInlineMarkdown` | pkg/onscreens-server/markdown.go:36-51 | the loop over the matches, with its builder and its last position, computes the recursive rendering |
| `EditDistance.Levenshtein` | pkg/chatbot/fuzzy.go:58-79 | the two swapped rows hold the edit distance |
| `EditDistance.NoShorterScript` | pkg/chatbot/fuzzy.go:58-60 | no script of insertions, deletions and substitutions that turns one string into the other is shorter than the distance |
| `EditDistance.ShortestScript` | pkg/chatbot/fuzzy.go:58-60 | some script is exactly as long as the distance |
| `EditDistance.ZeroIffEqual` | pkg/chatbot/fuzzy.go:58-79 | the distance is zero exactly on equal strings |
| `EditDistance.Symmetric` | pkg/chatbot/fuzzy.go:58-79 | the distance is symmetric |
| `EditDistance.Triangle` | pkg/chatbot/fuzzy.go:58-79 | the distance obeys the triangle inequality |
| `Fuzzy.FuzzyLookup` | pkg/chatbot/fuzzy.go:22-56 | whatever order the map is visited in, a command is returned exactly when some !-trigger is within the allowed distance and all the nearest ones name that command |
| `Fuzzy.AnswerIsUnique` | pkg/chatbot/fuzzy.go:22-27 | a fuzzy search has one possible answer, independent of the map's order |
| `Fuzzy.TrackedAnswer` | pkg/chatbot/fuzzy.go:34-55 | the running best, its distance and the ambiguity flag determine that answer |
| `Fuzzy.FuzzyStateName` | pkg/chatbot/handlers.go:476-512 | an exact state name, in any case, is never corrected; another is corrected exactly when all the nearest names within the distance are one name |
| `RateLimitsLaws.PruningIsInvisible` | pkg/errors/errors.go:105-144 | over any run with a clock that does not go back, the pruned map decides every event as a log of everything ever sent would |
| `RateLimitsLaws.SentryBudget` | pkg/errors/errors.go:105-135 | over any run: sends of one fingerprint are at least 15 minutes apart, each window sends at most the hourly cap, and any hour sees at most twice the cap |
| `RateLimitsLaws.AnyHourIsBounded` | pkg/errors/errors.go:109-121 | because windows start more than an hour apart, any one-hour interval touches at most two of them |
| `RateLimitsLaws.RunLawful` | pkg/errors/errors.go:105-135 | the window, cap and spacing rules are kept by every event of a run |
| `RateLimitsLaws.MapIsBounded` | pkg/errors/errors.go:109-131 | the map never holds more than twice the hourly cap |
| `RateLimitsLaws.StepSmall` | pkg/errors/errors.go:109-131 | the map and window bounds are kept by every event |
| `RateLimitsLaws.RollKeepsRecent` | pkg/errors/errors.go:109-117 | when a window rolls the map keeps exactly the fingerprints sent within the cooldown, so it is emptied if and only if every send is at least the cooldown old |
| `RateLimitsLaws.RollForgetsIff` | pkg/errors/errors.go:109-117 | the same over any run from the start of the process |
| `RateLimitsLaws.RollKeepsOne` | pkg/errors/errors.go:112-116 | a concrete run whose roll leaves a fingerprint in the map, still blocked |
| `RateLimits.Throttle.BeforeSend` | pkg/errors/errors.go:92-135 | the hook's decision and new state in production, and that it drops everything and changes nothing elsewhere |
| `RateLimits.DropExpired` | pkg/errors/errors.go:137-145 | deleting while ranging, in any order, leaves exactly the entries whose cooldown has not elapsed |
| `RateLimitsLaws.ReportPruningIsInvisible` | pkg/chatbot/commands.go:868-887 | over any run the pruned map allows exactly the reports that come a full cooldown after each one the chatter was allowed before |
| `RateLimitsLaws.ReportStepAgrees` | pkg/chatbot/commands.go:868-887 | after an allowed report the map holds only chatters who reported within the cooldown |
| `RateLimits.ReportCooldown.ReportAllowed` | pkg/chatbot/commands.go:871-887 | the decision and the new map of one report |
| `Onscreen.ExpiryIsLatest` | pkg/onscreens-server/onscreens.go:102-111 | after any run of shows, timed shows, hides, restores and sweeps, the expiry is the maximum of the initial expiry plus all durations and each timed show's time plus its own and all later durations |
| `Onscreen.NeverCutShort` | pkg/onscreens-server/onscreens.go:74-111 | whatever came before, no sweep hides a timed show within its own duration, also when further timed shows follow |
| `Onscreen.SweepHidesIff` | pkg/onscreens-server/onscreens.go:74-111 | after any run, a sweep leaves the overlay up if and only if it was up and either its last show was a permanent one or the time is not past every window the timed shows gave it |
| `Onscreen.ShowingIff` | pkg/onscreens-server/onscreens.go:74-191 | the overlay shows after a run if and only if something raised it, or it began raised, and no hide, hidden restore or sweep past its window came since |
| `Onscreen.ContentIsLast` | pkg/onscreens-server/onscreens.go:151-191 | the content is the one of the last event that carries a text |
| `Onscreen.TimedShowComesDown` | pkg/onscreens-server/onscreens.go:74-111 | a timed show on a new overlay is up through its duration and down at the first sweep after it |
| `Onscreen.Overlay.ShowFor` | pkg/onscreens-server/onscreens.go:160-168 | the overlay's whole new state after a timed show |
| `Onscreen.Overlay.Sweep` | pkg/onscreens-server/onscreens.go:76-82 | one turn of the loop hides the overlay exactly when it shows and its window has passed |
| `Onscreen.Overlay.RenderedContent` | pkg/onscreens-server/onscreens.go:135-149 | the memoized rendering is always the rendering of the current content, and asking for it changes nothing that shows |
| `MiddleTextLaws.CallbackHidesIffLatest` | pkg/onscreens-server/nats.go:117-125 | in every interleaving, a queued callback hides the text if and only if its timer was armed by the latest show and no hide, expiry or restart has happened since; any other callback changes neither the overlay nor the stream nor the pending timer |
| `MiddleTextLaws.FieldIsLatest` | pkg/onscreens-server/nats.go:97-115 | the pending-timer field holds exactly the timer armed by the latest show that nothing has cleared |
| `MiddleTextLaws.ArmedOnce` | pkg/onscreens-server/nats.go:107-114 | no two shows arm the same timer |
| `MiddleTextLaws.ShownUntilItsOwnTimer` | pkg/onscreens-server/nats.go:73-81 | from a show until the next command or restart the text stays up unless the timer of that very show runs; stopped and replaced timers never hide it |
| `MiddleTextLaws.StreamMatchesScreen` | pkg/onscreens-server/nats.go:73-81 | once the latest change was published, the retained state equals the live content and visibility through any sweeps, firings, stale callbacks and restored restarts |
| `MiddleTextLaws.RestartIsInvisible` | pkg/onscreens-server/middle-state.go:75-124 | with every publish delivered and earlier restarts restored, a restart at any moment of any run shows exactly what was showing if and only if it reads the stream back or the overlay was as constructed anyway |
| `MiddleTextLaws.RestartForgetsAutoHide` | pkg/onscreens-server/middle-state.go:104-124 | a restart drops every timer for good: until the next command there is none, the stream keeps its state, and what is shown stays as long as further restarts find the stream as this one did |
| `MiddleTextLaws.TimedTextComesDownIff` | pkg/onscreens-server/nats.go:83-125 | with publishes delivered and restarts restored, a text that no command replaces or hides comes down if and only if it was shown for a limited time and the timer of that very show fired and had its callback run before any restart |
| `MiddleTextLaws.ComesDownIff` | pkg/onscreens-server/nats.go:117-142 | under the same conditions the text is down exactly when a callback has found its timer pending since the show, and the stream agrees |
| `MiddleTextLaws.ExpiryIsItsOwn` | pkg/onscreens-server/nats.go:97-125 | that timer is the one the show armed, with no restart or hide in between |
| `MiddleTextLaws.AutoHideLost` | pkg/onscreens-server/middle-state.go:104-124 | a concrete run that loses an auto-hide: a text shown for a minute, a restart before the timer fires, and the text is up with no timer left |
| `MiddleTextLaws.SweepNeverHides` | pkg/onscreens-server/middle-text.go:8-23 | in every reachable state a turn of the sweep changes nothing of the middle text |
| `MiddleTextLaws.ShowingIff` | pkg/onscreens-server/nats.go:61-142 | in every interleaving, with publishes delivered and restarts restored, a text shows if and only if it is the one of the latest show, with no hide command since and its own timer not run out; or nothing was commanded yet and the empty text shows |
| `MiddleTextLaws.EmptyShowIsDropped` | pkg/onscreens-server/nats.go:61-72 | a show that does not decode, or has no text, changes nothing |
| `MiddleTextLaws.HideHides` | pkg/onscreens-server/nats.go:127-142 | a hide command takes the text down with its content kept and no timer pending, it stays down until the next show, and the stream holds the text as hidden |
| `MiddleTextLaws.HideHidesUndelivered` | pkg/onscreens-server/nats.go:127-142 | without a restart it does so whether or not anything is delivered |
| `MiddleText.Server.HandleMiddleShow` | pkg/onscreens-server/nats.go:61-81 | the whole new state after a show command, malformed and empty ones included |
| `MiddleText.Server.ArmMiddleHide` | pkg/onscreens-server/nats.go:97-115 | stopping the old timer and arming the new one, or none for a non-positive duration |
| `MiddleText.Server.HideMiddle` | pkg/onscreens-server/nats.go:136-142 | cancelling, hiding and publishing as one state change that keeps the content |
| `MiddleText.Server.ExpireMiddle` | pkg/onscreens-server/nats.go:109-125 | the body of a timer callback once it holds the lock |
| `MiddleText.Server.PublishMiddleState` | pkg/onscreens-server/middle-state.go:55-73 | the stream keeps the last delivered state and a failed publish leaves it alone |
| `MiddleText.RestoreMiddleText` | pkg/onscreens-server/middle-state.go:75-124 | the restored overlay has the content and visibility that were read back, or is as constructed when nothing could be |
| `MiddleText.Server.RestartAndRestore` | pkg/onscreens-server/middle-state.go:104-124 | a new process with its constructed overlay, then the restore, readable or not |
| `MiddleText.NewMiddleText` | pkg/onscreens-server/middle-text.go:13-23 | the overlay as constructed: permanent, showing and empty |
| `CommandLookupLaws.OneAnswerIffPrefixFree` | pkg/chatbot/handlers.go:362-375 | for aliases that can be typed, every message has one answer in every order of the maps if and only if no multi-word alias is a word-prefix of another |
| `CommandLookupLaws.OrderDoesNotMatter` | pkg/chatbot/handlers.go:339-425 | with word-prefix-free aliases the alias scan, the fuzzy search and the longest-prefix search give one answer per message in any order of their maps |
| `CommandLookupLaws.OrderMattersOtherwise` | pkg/chatbot/handlers.go:365-375 | when one alias is a word-prefix of another, the longer one typed in full has two different answers |
| `CommandLookupLaws.RegisteredAliasesArePrefixFree` | pkg/chatbot/registry.go:201-359 | the multi-word aliases of the registry are word-prefix-free |
| `CommandLookupLaws.LongestIsUnique` | pkg/chatbot/handlers.go:427-448 | the spaceless split has one answer: the longest trigger that is a proper prefix |
| `CommandLookupLaws.OnlyEnabledCommands` | pkg/chatbot/registry.go:492-511 | only commands enabled on the platform are ever returned, by any stage of the lookup |
| `CommandLookupLaws.OnlyVettedElsewhere` | pkg/chatbot/registry.go:479-490 | on every platform but Twitch a message only ever reaches a command of the allowlist |
| `CommandLookupLaws.ExactTriggerWins` | pkg/chatbot/handlers.go:339-380 | a message that spells an indexed trigger, in any case, with the bang apart or not and with or without the trailing invalid character, reaches that trigger's command with its params as typed, unless it opens with a multi-word alias |
| `CommandLookupLaws.StateShortcut` | pkg/chatbot/handlers.go:394-405 | a state's full name behind a bang, one word or several, in any case, with the bang apart or not, runs !guess with exactly the name's words, or with the first alone when the rest do not belong to a name |
| `CommandLookupLaws.AliasWins` | pkg/chatbot/handlers.go:362-375 | a message that opens with the words of a multi-word alias, in any case, runs its command with all the remaining words as params |
| `CommandLookupLaws.BareWord` | pkg/chatbot/handlers.go:382-392 | "commands" or "help" as the whole message runs the command behind the bang, or nothing when it is not indexed |
| `CommandLookupLaws.PlainChat` | pkg/chatbot/handlers.go:382-424 | any other word without a bang that is not indexed, or one of these two with more after it, names nothing |
| `CommandLookupLaws.TypoIsForgiven` | pkg/chatbot/fuzzy.go:7-56 | a misspelled command runs the one command that all the triggers at the least forgiven distance name, one edit in four to six characters and two from seven on, with its params as typed |
| `CommandLookupLaws.GluedOrUnknown` | pkg/chatbot/handlers.go:414-424 | when there is no such command, the longest trigger the word properly starts with runs with the rest put before the params exactly when that rest, with them or alone, is the name of a state; otherwise the message names nothing |
| `CommandLookupLaws.EnabledTriggerRuns` | pkg/chatbot/registry.go:485-511 | on Twitch or with no platform set every single-word trigger and alias, and on any other platform those of the allowlist, reaches a command of that name |
| `CommandLookupLaws.BangSpellings` | pkg/chatbot/handlers.go:29-48 | a leading inverted exclamation mark, or a 1 before a letter, reads as a bang, and anything else as it is |
| `Words.TrimSpaceIs` | pkg/chatbot/handlers.go:340 | trimming takes off all the spaces on either side and nothing else |
| `CommandLookupLaws.SpelledIsParsed` | pkg/chatbot/handlers.go:339-360 | words that spell a command and params are read as that command, lower-cased, and those params, untouched |
| `CommandLookupLaws.MatchIsWordwise` | pkg/chatbot/handlers.go:366-369 | comparing the joined words with the alias ignoring case is the same as comparing them word by word |
| `Words.SplitJoin` | pkg/chatbot/handlers.go:341 | splitting the joined words gives them back |
| `CommandLookup.SplitSpaceless` | pkg/chatbot/handlers.go:427-448 | in any order of the map, the longest registered !-trigger that properly starts the command, or none when there is none |
| `CommandLookup.FindCommand` | pkg/chatbot/handlers.go:339-425 | the answer is one that the stages in their order allow |
| `CommandLookup.Registry.IndexCommands` | pkg/chatbot/registry.go:492-511 | every trigger and alias of every enabled command is indexed, no other word is, and a word claimed twice names the last enabled command that claims it |
| `CommandLookup.Registry.RegisterTrigger` | pkg/chatbot/registry.go:549-555 | a trigger goes to the map for its kind and changes no other entry |
| `CommandRecording.ExactlyOneRecord` | pkg/chatbot/handlers.go:514-566 | for handlers that refuse any number of times: a message leaves exactly one record if and only if there is a sink and it starts with a bang that names nothing, or names a command that a gate denies or whose handler refuses at most once; and it leaves none exactly when there is no sink or it neither resolves nor starts with a bang |
| `CommandRecording.ShippedHandlersRecordOnce` | pkg/chatbot/commands.go:585-602 | !guess inside its cooldown, !report inside its own, and handlers that never refuse leave exactly one record per resolved message |
| `CommandRecording.RanIff` | pkg/chatbot/handlers.go:127-172 | a message is recorded as a run exactly when it resolves, every gate of its command is passed, and its handler does not refuse; and then the run is its only record |
| `CommandRecording.RunSays` | pkg/chatbot/handlers.go:162-171 | a recorded run names its sender, the canonical trigger and the params, and keeps the typed word only when it is not the trigger |
| `CommandRecording.RefusalSays` | pkg/chatbot/commands.go:585-602 | a denied command is recorded under its canonical trigger with the gate for a reason; !guess and !report refuse under their own names, for a cooldown, exactly when they should |
| `CommandRecording.UnknownSays` | pkg/chatbot/handlers.go:514-589 | a word behind a bang that resolves to nothing is refused under that word, as a wrong platform's exactly when a registered command that does not run here goes by it, and else as unknown |
| `CommandRecording.DenialReason` | pkg/chatbot/handlers.go:72-94 | the reason of a denial names the first gate that the sender does not pass |
| `CommandRecording.ReportGoesOutIff` | pkg/chatbot/commands.go:828-887 | over any run of messages of any kind, a report goes out if and only if every report of the chatter that went out before it is at least a minute old |
| `CommandRecording.RecordedReportsAreSpaced` | pkg/chatbot/commands.go:828-887 | two reports of one chatter that are both recorded as runs are at least a minute apart |
| `CommandRecording.AccessGrantedIff` | pkg/chatbot/handlers.go:72-94 | access is granted exactly when every gate that the command has and the platform can check is passed |
| `CommandRecording.App.Dispatch` | pkg/chatbot/handlers.go:130-172 | one dispatched command appends exactly its outcome, and with a sink the record grows by one when a gate denies or nothing is refused inside, and otherwise by the number of refusals |
| `CommandRecording.App.RunHandler` | pkg/chatbot/handlers.go:149-161 | all the refusals a handler makes are recorded in order, and the mark is flipped exactly when there is one, sink or no sink |
| `CommandRecording.App.RecordRefusal` | pkg/chatbot/handlers.go:265-293 | a refusal flips the mark even when there is no sink to write to |
| `CommandRecording.App.UnindexedCommand` | pkg/chatbot/handlers.go:568-589 | the first registered command that is not enabled and that the token names, ignoring case, or none when there is none |
| `CommandRecording.App.RunCommand` | pkg/chatbot/handlers.go:514-566 | the record grows by exactly what the resolved or unresolved message leaves, and the report cooldown moves only with it |
| `LocationFeed.CityIsCurrent` | pkg/locationfeed/locationfeed.go:139-199 | over any run, a cached city was fetched for footage of the local day and state that the feed stands at, in the cell it is kept for |
| `LocationFeed.ConditionsAreCurrent` | pkg/locationfeed/locationfeed.go:199-219 | the same of the cached conditions, for their cell and filmed hour |
| `LocationFeed.ShownPlaceIsAboutTheClip` | pkg/locationfeed/locationfeed.go:113-197 | a published place is the clip's own row, its state, or an answer fetched for the clip's own day and state |
| `LocationFeed.ShownWeatherIsAboutTheClip` | pkg/locationfeed/locationfeed.go:113-219 | published weather is empty or was fetched for the clip's own day and state |
| `LocationFeedHistory.CityAskedIff` | pkg/locationfeed/locationfeed.go:139-197 | the geocoder is asked exactly when the clip can be described and has no city of its own, no city got for its cell is held, and no question of the last five minutes since a state line holds it up |
| `LocationFeedHistory.WeatherAskedIff` | pkg/locationfeed/locationfeed.go:139-219 | the archive is asked exactly when the clip can be described, no conditions got for its cell and hour are held, and no such question holds it up |
| `LocationFeedHistory.ShownPlaceIs` | pkg/locationfeed/locationfeed.go:113-197 | a described clip is shown with its own row's place, else with the city held for its day and state, else with its state, and an undescribed one is not published |
| `LocationFeedHistory.ShownWeatherIs` | pkg/locationfeed/locationfeed.go:113-219 | a described clip is shown with the conditions held for its day and state, or with none |
| `LocationFeedHistory.CellIs` | pkg/locationfeed/locationfeed.go:134-137 | a cell is a square of a twentieth of a degree |
| `LocationFeed.CityLookupsAreSpaced` | pkg/locationfeed/locationfeed.go:145-197 | two consecutive geocoder calls are more than the throttle apart, unless the footage changed state within a day in between |
| `LocationFeed.WeatherLookupsAreSpaced` | pkg/locationfeed/locationfeed.go:145-219 | the same of two consecutive calls to the weather archive |
| `LocationFeed.BurstsStayThrottled` | pkg/locationfeed/locationfeed.go:145-150 | any number of jumps to other days, and of calls in between, cannot bring two geocoder calls within the throttle |
| `LocationFeed.WeatherBurstsStayThrottled` | pkg/locationfeed/locationfeed.go:145-150 | the same of calls to the weather archive |
| `LocationFeed.Emitter.Emit` | pkg/locationfeed/locationfeed.go:113-132 | the whole new cache state and what is published, skipped clips included |
| `LocationFeed.Emitter.Invalidate` | pkg/locationfeed/locationfeed.go:139-164 | both answers are dropped on a jump, and the throttle is reset only within a day |
| `MilesDriven.TotalIsBounded` | cmd/backfill-miles-driven/backfill-miles-driven.go:192-226 | for clips in film order the unrounded miles total at most the speed limit times the hours from the first fix to the last |
| `MilesDriven.DisjointGaps` | cmd/backfill-miles-driven/backfill-miles-driven.go:203-213 | the gaps that clips are credited for are disjoint, so any additive bound on each gap bounds the total |
| `MilesDriven.RoundedTotalIsClose` | cmd/backfill-miles-driven/backfill-miles-driven.go:99-101 | rounding moves the total by at most 0.0005 miles per credited clip |
| `MilesDriven.WrittenMilesAreBounded` | cmd/backfill-miles-driven/backfill-miles-driven.go:192-226 | the miles written obey the speed bound up to that rounding |
| `MilesDriven.CreditedIff` | cmd/backfill-miles-driven/backfill-miles-driven.go:196-223 | a clip is credited exactly when the next fix is a continuous and possible drive away, with the distance to that fix |
| `MilesDriven.ReasonIs` | cmd/backfill-miles-driven/backfill-miles-driven.go:196-223 | each reason is given exactly in its case: no usable coordinate, no later one, a gap that is not continuous, or more miles than the speed limit allows in it |
| `MilesDriven.RowsAreWritten` | cmd/backfill-miles-driven/backfill-miles-driven.go:89-97 | a run leaves miles in a row exactly when the clip is credited, equal at three decimals to the rounded credit, changes them only when they differ there, and changes nothing else |
| `MilesDriven.RoundHalfAway` | cmd/backfill-miles-driven/backfill-miles-driven.go:99-101 | rounding goes to the nearest whole number, and from halfway away from zero |
| `MilesDriven.SecondRunChangesNothing` | cmd/backfill-miles-driven/backfill-miles-driven.go:89-97 | after the results are written a second run computes the same values and changes no row |
| `MilesDriven.Round3Error` | cmd/backfill-miles-driven/backfill-miles-driven.go:99-101 | rounding to three decimals errs by at most half a thousandth, leaves three decimals and is idempotent |
| `MilesDriven.Analyze` | cmd/backfill-miles-driven/backfill-miles-driven.go:194-226 | the loop with its inner search returns one decision per clip as specified |
| `FindPicker.PickFindHit` | pkg/chatbot/find.go:236-257 | the loop with its seen keys and early exit chooses from exactly the first ten leading hits, or the nearest hit when there are none |
| `FindPicker.PoolIsTheNearestTen` | pkg/chatbot/find.go:228-235 | when the nearest hit is under the ceiling the pool is never empty, and no moment left out is nearer than one taken |
| `FindPicker.PickIsANearMoment` | pkg/chatbot/find.go:228-257 | then the pick is under the ceiling, is one of the pool, and is the nearest hit of its moment; and every pool entry is picked by some roll |
| `FindPicker.PickIsClose` | pkg/chatbot/find.go:228-256 | a pick is within the ceiling whenever any hit is, and the first hit otherwise |
| `FindPicker.SameMomentIs` | pkg/chatbot/find.go:34-36 | two hits are of one moment exactly when they are in one whole minute of one clip |
| `FindPicker.MomentsAreOrderedGroups` | pkg/chatbot/find.go:239-252 | each moment appears once, within the ceiling, nearest first, by its own nearest hit |
| `FindPicker.EveryMomentIsRepresented` | pkg/chatbot/find.go:239-252 | every moment with a hit under the ceiling is in the list the pool is cut from |
| `FindPicker.KeyNamesTheMoment` | pkg/chatbot/find.go:243 | two hits have the same printed key exactly when they share slug and bucket, colons in slugs notwithstanding |

## Left out

- ConvergedIff: needs clips in film order, as the query that loads them sorts them; the other fixed-point results do not.
- HoleFate, MissingFate, RejectedFate and SuspectKeptIff: need clips in film order too.
- PruningIsInvisible: assumes a clock that does not go back, as Go's monotonic reading provides within a process.
- SentryBudget: assumes that same clock.
- RegisteredAliasesArePrefixFree: lists the multi-word aliases of the registry by hand.
- DecisionsAreSafe: the box bound is over reals; float64 rounding in the interpolation could exceed it in the last bit.
- SecondRunChangesNothing: rounding is on reals, so the float64 to REAL round trip that the comparison absorbs is not modelled.
- BoldHtml and ItalicHtml: are about input without further backticks, which CodeHtml splits into such parts; an italic text followed at once by an asterisk is covered by the laws on all inputs only.
- CityAskedIff, WeatherAskedIff, ShownPlaceIs and ShownWeatherIs: need every clip to have a local day, as every date has.
- RunHandler: a handler other than !report does nothing but refuse, by its sender and params; what else it does, and in what order with its refusals, is not modelled.
- RestartAndRestore: the restore does not take the lock in the code, so a command arriving in the middle of a restart is not modelled.
- ShowFor: the code reads the clock twice when the window has passed; the model takes one reading.
- PickFindHit: the random pick is the roll modulo the size of the pool.
- Running backfill-coords twice: a second run judges interpolated rows as ordinary fixes, and nothing is claimed about it.
- Scaling the interpolation gap by a corpus's speed and concatenating the decisions of the corpora, in the backfills' `main`.
- The printed report, the SQL text, and the `flagged` column.
- The haversine formula, floating-point rounding, NaN coordinates and overflow of 64-bit durations.
- Byte offsets and invalid UTF-8; all positions are in characters.
- Go's regular-expression engine, its Unicode tables and its HTML escaper beyond the five characters it replaces.
- `tagNoise`, drop counters, spans, logs and metrics.
- `scheduleMiddleHide`, which takes the lock and calls `armMiddleHide`.
- Mutex acquisition itself: what runs under a lock is one step.
- The other overlays' NATS handlers, the rotators, and the web endpoints: one branch each.
- The airing clip and playhead stamped on records, the run's detail, and the replies in chat.
- The texts of commands and their handlers, help lines, announcements, gifts and leaderboards.
- The database, NATS, JetStream, HTTP and Discord clients, which appear only as parameters or as the retained last value.
- `pkg/rotator`, `pkg/scoreboards`, `pkg/users`, `pkg/video`, `pkg/obs/beds` and `pkg/obs/watchdog` are not part of this model.
