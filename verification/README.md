# Supremely, modelled and proved in Dafny

Supremely is a multi-tenant community platform: a site, its content, memberships and the jobs
behind them, in Flask. This project models the parts of it that are protocols or algorithms and
proves what they are for. `dafny verify dfyconfig.toml` checks all of it.

What the source computes in expressions is a function here; what it changes in place is a class
with the source's fields and methods, each method proved against a specification function or
relation, and the theorems are about those. What several workers or requests interleave is a
transition system with one step a database commit, and the theorems quantify over every run.

| module | of the system |
|---|---|
| `Numerals`, `Markers`, `Markup`, `Stash`, `TwoRestores` | the body renderer's stash of directives behind numbered marker words and the restore of their blocks |
| `RateLimit` | the fixed-window limiter, its sweep and its cap |
| `JobQueue`, `Workers`, `Recurring` | the job table; any number of workers on it; a job that books its own next run |
| `Newsletter` | the resumable send of one newsletter |
| `Tiers`, `Access`, `Listings` | the ladder of membership tiers, the read rule in its two forms, and the listings, feeds and sitemap built on it |
| `ContentTypes`, `ContentStore`, `Blocks` | the registry of content types, validated saves, cascading deletions, and the order of the blocks inside an item |
| `Slugs`, `FreeSlugs` | slugs derived from titles and the walk to a free one |
| `Routing`, `RoutingCases` | permalinks and the dispatcher that inverts them, on the text of the path |
| `Sections`, `FrontPage` | the settings form for the front page's sections and what the page then shows |
| `PasswordResets` | one-time reset links |
| `Plugins` | install and uninstall over the dependency graph |
| `Ordering`, `Sets`, `Wrappers` | stable sorting, finite sets, `Option` and `Result` |

## What turned out differently

- **Rate bound.** Over any interval as long as the window the limiter admits at most
  `2 * limit - 1` requests of a key, not `2 * limit`, and that is reached.
- **Sending twice.** The newsletter module's opening comment says no subscriber is mailed twice;
  a crash between the mail and its commit mails twice (`Newsletter.CrashMailsTwice`). The exact
  count is one mail plus the mails whose record a crash lost (`Newsletter.MailBound`).
- **Exclusive claims** rest on the fifteen-minute timeout: a zombie recovery keeps them exactly
  when no live handler is past it (`Workers.RecoveryNeedsTimely`).
- **Claims before their time.** The conditional update does not look at `run_at` again, so a
  worker with a stale candidate can claim a row before its backoff is over; `Workers.BackoffSkipped`
  is a run in which one does. A claim is on time exactly when, since its candidate was chosen, no
  failure or retry by hand booked the row again, or the last one to do so booked it for no later
  than the moment of choosing (`Workers.OnTimeExactly`). Two workers can have chosen one row only
  where the select takes no lock, as on SQLite; on PostgreSQL the row stays locked from the select
  to the update (jobs.py:54-55).
- **A schedule that dies.** A recurring job books its next run first, so that no failure takes the
  schedule down. One does: when the booking itself fails on the job's last attempt, as on a locked
  database, the row goes to failed with no successor. A step takes a live schedule down exactly
  when a handler gives up before it has booked while no other row is pending, no other worker has
  still to book and no row is orphaned unbooked (`Recurring.DiesExactly`); a run keeps the schedule
  alive all along exactly when it has no such step (`Recurring.StaysUpExactly`). With one worker
  such a run exists for every number of attempts, without a crash
  (`Recurring.UnbookedGiveUpEndsIt`), and only a restart or a retry by hand brings the schedule
  back (`Recurring.DeadStaysDead`). The upper bound holds whatever fails.
- **Free slugs.** With k addresses taken, k + 1 probes suffice exactly when the base is not a
  sixty-character slug ending in a number the walk tries itself (`FreeSlugs.BoundIsExact`); with
  such a base one more is needed (`FreeSlugs.ThreeProbesForOne`).
- **Cutting a slug.** The docstring has long text cut back to the last whole word. That is so
  exactly when a word ends in the upper half of the room and none just at its end, or the other
  way round (`Slugs.LastWholeWordExactly`): a word that ends just at the limit is dropped although
  it fits, as of a title in `Slugs.FittingWordDropped`.
- **Permalinks.** Dispatch inverts them for pages of the type called `page`. The registry accepts
  further archiveless types, and two items of such types with one slug share a permalink at which
  at most one is read (`Routing.TwinsShareALink`, and two saves that make such a pair in
  `RoutingCases.TwoPagesShareALink`); an addressed block of an archiveless type is not served at
  its own permalink (`Routing.BlockIsServed`, and such a block in `RoutingCases.CardIsNotServed`).
- **Reset links.** A password change ends every earlier link for every later look at it. The
  earlier links that can still set a password are exactly the unspent ones some request had found
  valid before the change, as its transaction asks only that (`PasswordResets.LateRedeemExactly`,
  with a run in `PasswordResets.LateRedeemHappens`).

## Assumptions

One organization is in force and a request is under way. Tokens and password digests are fresh
values. Titles, tier names and slugs arrive stripped and lower-cased, text for a slug arrives
folded to ASCII. The Markdown library, the sanitiser and the directive patterns are opaque: a body
arrives split at the lines a pattern matched, and rendering is any document that keeps the marker
words intact. One worker sends newsletters, and no subscriber is deleted while a delivery goes on:
recipient rows fall with their subscriber, and the total would not. The window of a rate-limit key
is constant and its clock does not run backwards. The type called `page` keeps no archive, as the
application registers it. `requires` of a plugin is the same in each of its majors, and the load
order is the topological one. `RESERVED_PAGE_SLUGS` covers the application's own routes.

## Model

| member | source | states |
|---|---|---|
| `Numerals.PrefixIsSmaller` | app/platform/content.py:469-480 | A decimal numeral that another starts with is the smaller number: why markers go back in descending order |
| `Markers.RestoreBlocks` | app/platform/content.py:469-488 | The loop over descending indices computes the nested replacements, wrapped form before bare form, tail entry as token |
| `Markers.ReplaceWrapped` | app/platform/content.py:487 | Replacing the k-th wrapped marker in a text where higher markers are done adds exactly that marker's substitution, never one made up by text already put back |
| `Markers.ReplaceBare` | app/platform/content.py:487 | The same of the bare form, which must not eat the front of a longer marker |
| `Markers.RestoreIsSimultaneous` | app/platform/content.py:469-488 | For every text, any number of blocks that hold no marker and any token: sequential descending restore is one left-to-right simultaneous substitution |
| `Markup.StemIsGood` | app/platform/content.py:382-390 | Both marker words with any hexadecimal token make a stem that never overlaps itself |
| `Markup.BuiltMarkupIsGood` | app/platform/content.py:232-249 | The frames and figures the renderer builds, whatever their address and description, meet what a restore asks of a block unless they hold the marker |
| `Stash.OnePassExpands` | app/platform/content.py:469-488 | On a document whose marker words are intact the pass puts exactly each word's own block in its place |
| `Stash.RestorePutsBlocksBack` | app/platform/content.py:469-488 | Restore replaces every marker word by its own block and changes nothing else, whatever the renderer made around the words |
| `Stash.StashVideos` | app/platform/content.py:376-394 | The substitution loop: unknown links left as typed, known ones numbered in order, token last and only if there is a block |
| `Stash.WantedIds` | app/platform/content.py:405-426 | The ids are those some prefix of the body asks for, cut short only at fifty distinct ones |
| `Stash.SwapImages` | app/platform/content.py:449-465 | Unknown placements stay text, missing files and files past the cap vanish, the rest are numbered in order |
| `Stash.StashImages` | app/platform/content.py:438-466 | Both passes of the image stash, with the files fetched once |
| `Stash.ShowsFifty` | app/platform/content.py:449-465 | Of the directives whose picture can be shown exactly the first fifty are shown |
| `Stash.StashThenRestore` | app/platform/content.py:376-488 | Round trip of one family with nothing rendered in between: with a fresh token every honoured directive ends as its own block where it stood and all other text is untouched |
| `TwoRestores.BothRestoresPutBlocksBack` | app/platform/content.py:335-343 | On one rendered body with both kinds of marker the video restore and then the image restore put every block back and change nothing else, where each family's words are intact in what its restore is given |
| `TwoRestores.PlainTextIsEnough` | app/platform/content.py:335-343 | The same from the written text alone: it holds neither stem, no frame holds the figures', no digit runs on after a bare word and none is alone in its paragraph |
| `TwoRestores.FamiliesAreApart` | app/platform/content.py:438-448 | Text without the stem of one family stays without it around any marker of the other, whatever the tokens |
| `Stash.CutIsInvisible` | app/platform/content.py:405-466 | Fetching only the first fifty files shows what fetching all would, provided those fifty can be shown |
| `Stash.CutShowsExactly` | app/platform/content.py:405-466 | Fetching only some files shows if and only if a file that was not fetched and can be shown is reached before fifty are shown |
| `RateLimit.RateLimiter.Sweep` | app/middleware/ratelimit.py:168-176 | The two passes over the dict: expired entries, then the oldest over the cap |
| `RateLimit.RateLimiter.MaybeSweep` | app/middleware/ratelimit.py:98-107 | When a sweep runs and when it does not |
| `RateLimit.RateLimiter.CheckLimit` | app/middleware/ratelimit.py:148-165 | The answer and the whole new dict of one check |
| `RateLimit.RateLimiter.RecordFailure` | app/middleware/ratelimit.py:131-139 | The whole new dict after a failure is recorded |
| `RateLimit.RateLimiter.TooManyFailures` | app/middleware/ratelimit.py:117-128 | Spent exactly while the window is open and the count has reached the limit; nothing changes |
| `RateLimit.RateLimiter.ClearFailures` | app/middleware/ratelimit.py:142-145 | The entry goes and nothing else does |
| `RateLimit.SweepProperties` | app/middleware/ratelimit.py:168-176 | After a sweep no entry is expired and at most the cap are left, none altered, and what was evicted is a prefix in insertion order |
| `RateLimit.SweepingIsInvisible` | app/middleware/ratelimit.py:98-176 | Over every run of calls a sweeping limiter answers as one that never deletes |
| `RateLimit.RunProjects` | app/middleware/ratelimit.py:148-165 | What a run answers for one key depends on the calls for that key alone |
| `RateLimit.SlidingBound` | app/middleware/ratelimit.py:148-165 | In every run on any keys, every closed interval as long as the window holds at most 2 * limit - 1 admitted requests of a key |
| `RateLimit.SlidingBoundIsReached` | app/middleware/ratelimit.py:148-165 | For every limit and window some run on an empty limiter reaches that bound |
| `RateLimit.EachWindowBound` | app/middleware/ratelimit.py:148-165 | In every run each window a request opens admits at most the limit until it closes |
| `RateLimit.RefusalLeavesNoTrace` | app/middleware/ratelimit.py:148-165 | With a refused request and without it a run answers every other call alike: retrying locks nobody out |
| `RateLimit.RefusedOnlyWhenFull` | app/middleware/ratelimit.py:148-165 | In every orderly run a request is refused only where the limit was admitted within one window before it |
| `RateLimit.AdmittedAfterAPause` | app/middleware/ratelimit.py:148-165 | So a request more than the window after the last admitted one is admitted |
| `RateLimit.FailuresCount` | app/middleware/ratelimit.py:117-139 | From the failure that opens a window until it closes, asking answers yes exactly from the limit-th failure on |
| `RateLimit.ClearForgives` | app/middleware/ratelimit.py:117-145 | After a clear asking answers no until the identity fails again |
| `RateLimit.FailureKeysTell` | app/middleware/ratelimit.py:110-114 | Identities share a failure count exactly where their first 255 characters agree, and none shares a key with a request count |
| `RateLimit.MemoryIsBounded` | app/middleware/ratelimit.py:98-107 | A counted call more than thirty seconds after the last sweep leaves at most the cap and its own entry, and sweeps are more than thirty seconds apart |
| `JobQueue.Queue.SelectCandidate` | app/platform/jobs.py:43-60 | The candidate is the pending due row that is earliest by `run_at` of those no other worker has locked (on SQLite none is), or there is none |
| `JobQueue.Queue.ClaimUpdate` | app/platform/jobs.py:61-69 | The conditional update wins exactly where the row is still pending and writes the claim fields, else changes nothing |
| `JobQueue.Queue.Execute` | app/platform/jobs.py:84-112 | Success, retry with backoff, or giving up: the whole row after a handler ends |
| `JobQueue.Queue.RetryFailed` | app/models/job.py:56-72 | Only a failed row is reset, all six fields of it |
| `JobQueue.Queue.RecoverZombies` | app/platform/jobs.py:115-127 | Exactly the running rows past the timeout become pending, counted |
| `JobQueue.Queue.RunPendingJobs` | app/platform/jobs.py:227-236 | The loop works through at most `limit` rows, each the candidate at its turn, stopping early only when nothing unlocked is due |
| `JobQueue.DrainsInOrder` | app/platform/jobs.py:227-236 | Where every handler succeeds the loop works the due rows through once each, earliest booking first, and all of them where it stops for want of one |
| `JobQueue.AttemptsAreTurns` | app/platform/jobs.py:61-112 | Whatever comes of the handlers a row's attempts rise by its turns, and a row the loop did not come to is as it was |
| `JobQueue.RetriedIsNew` | app/models/job.py:56-72 | A job retried by hand is as one just enqueued |
| `Workers.ClaimsAreExclusive` | app/platform/jobs.py:43-127 | Over every interleaving of any number of workers with crashes, retries and recoveries, each row has at most one holder, running means held or orphaned, and the two stamps match the status, as long as no handler outlives the timeout |
| `Workers.RunningIsHeld` | app/platform/jobs.py:43-112 | Without a crash a row is running exactly while one worker holds it |
| `Workers.RecoveryNeedsTimely` | app/platform/jobs.py:115-127 | A recovery keeps exclusion if and only if no live worker's row is past the timeout |
| `Workers.RecoveredExactly` | app/platform/jobs.py:115-127 | A recovery takes back exactly the running rows claimed more than fifteen minutes before |
| `Workers.OrphanWaits` | app/platform/jobs.py:115-127 | In every run what a dead worker left stays running until a recovery more than fifteen minutes after its claim, which makes it pending and changes nothing else |
| `Workers.HeldSinceChosen` | app/platform/jobs.py:61-69 | A claimed row keeps its holder and the stamp of its choosing through any run in which that worker neither ends nor dies |
| `Workers.SuccessIsForGood` | app/platform/jobs.py:84-112 | After a success, in every run, the row is done until purged, nobody holds it again and nobody can retry it |
| `Workers.GivenUpIsFinal` | app/platform/jobs.py:92-112 | A job given up stays failed with its message, held by nobody and ready to be retried by hand, until it is or is purged |
| `Workers.ErrorIsLastSaid` | app/platform/jobs.py:92-107 | Over every run a row's error is the message of its last failure, until a retry by hand clears it |
| `Workers.LeavesOnlyFinished` | app/platform/jobs.py:184-194 | A row leaves the table in a purge, finished before its cutoff, and never otherwise |
| `Workers.OneWinner` | app/platform/jobs.py:43-69 | Of any number of workers that chose one row the first to update has it and all others get nothing |
| `Workers.OutlivedTimeoutSharesARow` | app/platform/jobs.py:115-127 | A run in which a handler past the timeout shares its row with a second worker |
| `Workers.OnTimeExactly` | app/platform/jobs.py:43-69 | In every run a claimed row was due when its candidate was chosen if and only if no step since booked it again or the last one booked it for no later |
| `Workers.RunAtIsLastBooked` | app/platform/jobs.py:92-107 | Over every run a row's time is what a retried failure or a retry by hand last booked; nothing else moves it |
| `Workers.StaleCandidateSkipsBackoff` | app/platform/jobs.py:43-69 | Wherever two workers have chosen a row the second can claim it before the first one's backoff is over |
| `Workers.BackoffSkipped` | app/platform/jobs.py:43-69 | A run from the start in which one does |
| `Workers.RunsAreBounded` | app/platform/jobs.py:61-127 | In every run a job is claimed at most max(1, max_attempts) times plus its zombie resets since its enqueue or retry |
| `Workers.AlwaysFailing` | app/platform/jobs.py:92-112 | A job that always fails runs exactly as often as it may and waits 10 * (4^(max - 1) - 4^attempts) seconds in all |
| `Recurring.ScheduleNeitherDiesNorGrows` | app/platform/jobs.py:84-210 | In every run of W workers, handlers failing before, while or after they book, at most 2W rows are live, and one for each crash and manual retry of the run; and once seeded at least one is, unless some handler's giving up before it booked took the last thing that kept the schedule alive |
| `Recurring.StaysUpExactly` | app/platform/jobs.py:84-210 | Every state of a run from its seeding on is alive if and only if the run has no such step, so surely where no handler gives up before it has booked |
| `Recurring.DiesExactly` | app/platform/jobs.py:92-150 | One step leaves a live schedule alive if and only if it is no give-up before booking, or another row is pending, another worker has yet to book or a row is orphaned unbooked |
| `Recurring.UnbookedGiveUpEndsIt` | app/platform/jobs.py:92-150 | For any number of attempts a run of one worker, without crash or retry, that leaves the seeded job with no live row |
| `Recurring.DeadStaysDead` | app/platform/jobs.py:133-224 | With no row live and no worker starting up, every run without a crash or a manual retry leaves none live |
| `Recurring.RestartRevives` | app/platform/jobs.py:197-224 | And a restart of any worker, through its check and its enqueue, leaves one |
| `Recurring.RetryRevives` | app/models/job.py:56-72 | As does a manual retry |
| `Recurring.LiveExactly` | app/platform/jobs.py:84-210 | Each step changes the number of live rows by one up for an enqueue or a manual retry, one down for a success or a giving up, and else not |
| `Recurring.FailedExactly` | app/platform/jobs.py:92-107 | Failed is what was given up, until it is retried or purged |
| `Recurring.BoundIsReached` | app/platform/jobs.py:133-150 | For every W some run without crash or retry has exactly 2W live rows |
| `Newsletter.Delivery.CreateForContent` | app/models/newsletter.py:116-129 | The audience snapshot, one open row a subscriber |
| `Newsletter.Delivery.SendDelivery` | app/platform/newsletter.py:93-168 | One execution: rows, counters, status and re-enqueue; sent + failed + remaining = total, done exactly when nothing remains |
| `Newsletter.BatchMarks` | app/platform/newsletter.py:117-152 | A batch marks exactly its own recipients, each once, and leaves every marked one as it was |
| `Newsletter.BatchCounts` | app/platform/newsletter.py:117-168 | A batch raises the sent count by the mails that went out and the failed count by the rest of it |
| `Newsletter.ConservedAcrossCrashes` | app/platform/newsletter.py:117-168 | From a delivery just created, after every run with crashes, nobody is sent and errored at once and sent + failed + open = total |
| `Newsletter.Resume` | app/platform/newsletter.py:93-168 | So an execution resumed after such a run counts up to the total again and is the last exactly when nothing remains |
| `Newsletter.ExecutionsNeeded` | app/platform/newsletter.py:117-168 | An uninterrupted delivery to n recipients takes exactly ceil(n / 200) executions, one for nobody |
| `Newsletter.MailBound` | app/platform/newsletter.py:117-168 | In every run of executions and crashes mails to a recipient = recorded + lost + in flight; exactly one once sent if and only if none was lost; nobody marked is mailed or re-marked |
| `Newsletter.StepsAreOneExecution` | app/platform/newsletter.py:117-152 | The commits of an uninterrupted execution, one by one, come to what the loop does |
| `Newsletter.CrashMailsTwice` | app/platform/newsletter.py:134-152 | A crash between the mail and its commit mails the same recipient again |
| `Tiers.Ladder.EnsureDefault` | app/models/tier.py:110-131 | The lowest active tier, or a new default exactly on an empty ladder |
| `Tiers.Ladder.Add` | app/models/tier.py:155-177 | A valid new tier goes on top, an invalid one changes nothing |
| `Tiers.Ladder.Move` | app/models/tier.py:179-201 | Renumber then swap, from any ranks, tied ones included, leaves each row ranked by its place in the moved order |
| `Tiers.Ladder.Retire` | app/models/tier.py:210-241 | Refused exactly when at most one tier is active |
| `Tiers.Ladder.Restore` | app/models/tier.py:222-226 | Only that tier becomes active |
| `Tiers.MovedIsGood` | app/models/discussion.py:175-192 | The move ladders and discussion groups share: ranks 1..n, the order that of an adjacent swap or unchanged, distinctness and slugs kept |
| `Tiers.MoveGoesAsAsked` | app/models/tier.py:179-201 | A negative direction takes the tier one place down and any other one up, past neither end |
| `Tiers.MoveAndBack` | app/models/tier.py:179-201 | A move that moved anything and the move back leave the order as it was |
| `Tiers.AddSucceedsExactly` | app/models/tier.py:53-69 | A tier is accepted if and only if its name has one to fifty characters and its slug is one of at most thirty that no tier has |
| `Tiers.RunKeepsGood` | app/models/tier.py:154-241 | From an empty ladder every run keeps ranks and slugs distinct and a tier active, and drops no tier |
| `Ordering.SortedIsUnique` | app/models/tier.py:72-82 | An order by number, then id, is the only one of its rows |
| `Access.EnumerationAgrees` | app/platform/authz.py:213-281 | For every viewer, every ladder with distinct slugs and every string the enumeration holds exactly the values the predicate says yes to, and is absent if and only if all are readable |
| `Access.ReadsExactly` | app/platform/authz.py:213-253 | Who reads what, in full: the public everybody; platform admins, owners and admins everything; a member what is for members and what a tier no higher than theirs gates; nobody else anything |
| `Access.TierReadsByRank` | app/platform/authz.py:213-253 | A plain member on one tier reads what is gated to another if and only if theirs ranks no lower, and on none nothing gated |
| `Access.HigherReadsMore` | app/platform/authz.py:213-253 | A member on a higher tier reads all that one on a lower does |
| `Access.RetiringChangesNoRead` | app/platform/authz.py:213-253 | Retiring or restoring a tier changes nobody's reads |
| `Access.AddingChangesNoRead` | app/platform/authz.py:213-253 | Adding a tier changes no existing member's reads |
| `Access.MoveChangesOnePair` | app/models/tier.py:179-201 | A move turns round the comparison of the moved tier with its neighbour and no other |
| `Access.MoveChangesOnlyThePair` | app/platform/authz.py:213-253 | A move changes a read only of a member on one of the two tiers, of something gated to the other |
| `Listings.VisibleLists` | app/models/content.py:856-874 | A type's listing shows every published standalone item of an active type, less what the viewer may not read where the type does not tease |
| `Listings.ListedIsWhatOpens` | app/models/content.py:742-874 | With teasing off, being listed in a readable section and being open to the viewer are the same |
| `Listings.OpensByBothRanks` | app/models/content.py:738-760 | A plain member opens an item if and only if their tier ranks no lower than the section's and the item's own |
| `Listings.SyndicationIsTheUnion` | app/models/content.py:877-944 | The OR-ed feed of everything is the union of the per-type listings over the readable feed types |
| `Listings.SyndicationByType` | app/models/content.py:877-944 | An item is in the feed of everything exactly when it is in its own type's feed, and never of a closed section |
| `Listings.SyndicationListsExactly` | app/models/content.py:877-944 | What the feed of everything lists, in full: published standing items of active archive types, of readable sections, each readable unless its type teases |
| `Listings.FeedsAgreeOnAnyLadder` | app/models/content.py:742-944 | On every ladder any run of tier operations has made from none, the feed of everything and each type's own feed agree, and a section that does not tease lists exactly what opens |
| `Listings.SitemapIsForStrangers` | app/models/content.py:978-1002 | The sitemap lists exactly the published items an anonymous visitor may open, and everybody may open those |
| `Listings.OffIsNowhere` | app/models/content.py:785-818 | A type turned off is in no listing |
| `ContentTypes.Registry.Register` | app/platform/content_types.py:489-501 | Registration succeeds exactly for a valid definition with a new slug and an unused base, and keeps slugs and bases unique |
| `ContentTypes.BaseFindsItsType` | app/platform/content_types.py:647-651 | Looking up a base finds its one type exactly when that is active |
| `ContentTypes.ActiveExactly` | app/platform/content_types.py:508-531 | Which types are on: a plugin's only while it is installed, essential ones always, any other as last decided or else as it ships |
| `ContentStore.SaveKeepsGood` | app/models/content.py:284-415 | A save that is not refused keeps one-level blocks, both unique address spaces, reserved slugs free and addresses only where wanted |
| `ContentStore.SaveSucceedsExactly` | app/models/content.py:284-459 | With a typed slug, or none wanted, a save is accepted if and only if its fields are good, it may stand where it is put and its address is neither a route nor taken; and it stores what was typed under the defaults |
| `ContentStore.SlugComesFromTheTitle` | app/models/content.py:284-415 | A slug nobody typed is the title's own where that is free; a title without letters or digits is refused, and for nothing else |
| `ContentStore.ResavingChangesNothing` | app/models/content.py:284-459 | A stored row saved again is stored unchanged, addresses and places never moving by themselves, except exactly that a block without a place is put after its siblings |
| `ContentStore.DerivedSlugIsNeverRefused` | app/models/content.py:284-415 | A slug nobody typed, missing or blank, is never what a save is refused for |
| `ContentStore.DeletingKeepsGood` | app/models/content.py:209-211 | A cascading deletion leaves no block without its parent |
| `ContentStore.DeletingUndoesAdding` | app/models/content.py:209-211 | A new item deleted again leaves the table as it was |
| `ContentStore.LadderGrowthKeepsGood` | app/platform/authz.py:156-186 | As tiers are only added and retired no stored row becomes invalid |
| `Blocks.ContentTable.Save` | app/models/content.py:284-415 | A save stores the validated row or changes nothing, and keeps the store good |
| `Blocks.NewBlockGoesLast` | app/models/content.py:453-459 | A new block that names no place is listed after all the others, the first one at place 0 |
| `Blocks.ContentTable.MoveChild` | app/models/content.py:465-485 | The move, the renumbering and the item's own save: the whole new table, refused only for a block not in the item |
| `Blocks.MoveHolds` | app/models/content.py:465-485 | After a move the item lists its blocks in the moved order whatever their positions were, missing and equal ones included, and the store stays good |
| `Blocks.MoveBack` | app/models/content.py:480-482 | A move undone by the move back |
| `Blocks.MoveGoesAsAsked` | app/models/content.py:477-482 | A moved block stands `delta` places on where that is in the list and else where it stood, the others in their order |
| `Blocks.ListingIsUnique` | app/models/content.py:209-211 | An item's blocks, all with places, have one listing by place |
| `Blocks.RunKeepsGood` | app/models/content.py:284-485 | From an empty table every run of saves, deletions and moves, refused ones included, keeps the forest and the address spaces, and leaves every block a place if all had one |
| `Slugs.UncutIsItsWords` | app/models/base.py:82-99 | Before any cut a slug is the text's runs of letters and digits, lower-cased, joined by hyphens |
| `Slugs.SlugIsClean` | app/models/base.py:97-106 | Only letters, digits and single inner hyphens; within the limit; a prefix of the joined words, cut at the end of a word if one ends past half way |
| `Slugs.LastWholeWordExactly` | app/models/base.py:91-106 | A slug is the longest run of whole words that fits if and only if the text fits, or a word ends in the upper half of the room and none at its end, or one at its end and none in the upper half (with the case of two characters) |
| `Slugs.FittingWordDropped` | app/models/base.py:91-106 | A title of which the slug drops a word that fits |
| `Slugs.SlugifyIsIdempotent` | app/models/base.py:82-106 | Deriving a slug from a slug changes nothing |
| `Slugs.CaseIsNothing` | app/models/base.py:82-106 | Texts that differ in case alone have one slug |
| `Slugs.FallbackOnlyForNothing` | app/models/base.py:106 | A slug is the fallback exactly for a text without a letter or digit, or one whose slug that is |
| `FreeSlugs.FreeSlug` | app/models/content.py:535-589 | The nested loops answer the first free numbered probe, else the first free random one |
| `FreeSlugs.AnswerIsWellFormed` | app/models/content.py:535-589 | The answer is free, well formed and at most sixty characters |
| `FreeSlugs.CountProbes` | app/models/content.py:574-588 | The first m probes are m different addresses, one fewer where the base is its own probe |
| `FreeSlugs.FreeWithin` | app/models/content.py:574-588 | With k addresses taken the walk ends within k + 1 probes, one more for such a base, so the random branch needs a hundred taken |
| `FreeSlugs.FreeBaseIsKept` | app/models/content.py:535-572 | A free base is kept as it is |
| `FreeSlugs.NumberedWhileUncrowded` | app/models/content.py:574-589 | With fewer than a hundred addresses taken the answer is a numbered one, whatever the draws |
| `FreeSlugs.BoundIsExact` | app/models/content.py:574-588 | k + 1 probes suffice for all sets of taken addresses if and only if the base is not its own probe |
| `FreeSlugs.ThreeProbesForOne` | app/models/content.py:574-588 | A concrete base that takes three probes with one address taken |
| `Routing.SplitInvertsPath` | app/controllers/site.py:1-13 | Splitting a path gives back the segments it was built from |
| `Routing.StandaloneIsServed` | app/controllers/site.py:147-200 | The permalink of a standalone row dispatches to it if and only if it is published and of an active archive type or the page type |
| `Routing.BlockIsServed` | app/controllers/site.py:202-259 | The permalink of a block dispatches to the block if and only if it has an address, it and its parent are published, their types active and archived, and the parent's base not reserved |
| `Routing.ServedAfterAnyRun` | app/controllers/site.py:147-259 | So in every table reached by any run of saves, deletions and moves, for the row itself and for the row its permalink is about |
| `Routing.ItemExactly` | app/controllers/site.py:147-259 | A path is dispatched to a row if and only if the row is served and the path is its own address, slugs in any case and between blanks |
| `Routing.ArchiveExactly` | app/controllers/site.py:147-155 | A path is dispatched to an archive if and only if it is the base of that active type |
| `Routing.NamedInAnyCase` | app/models/content.py:1146-1150 | A slug is named by any text that is it up to case and blanks around it |
| `Routing.ReservedIsNoPage` | app/controllers/site.py:147-158 | No path that names a reserved word or an archive's base leads to a page |
| `Routing.OtherRoutes` | app/controllers/site.py:161-186 | The feeds and the listings by category and tag are routes of their own |
| `Routing.OwnerIsServed` | app/models/content.py:622-652 | A permalink, whatever row it was asked of, dispatches to the row it is about if and only if that one is served: a block without an address leads to its parent |
| `Routing.PermalinksTell` | app/models/content.py:622-652 | Two rows share a permalink if and only if it is about one row, or about two archiveless ones with one slug |
| `Routing.DistinctLinks` | app/models/content.py:622-652 | With pages the only archiveless type distinct standalone rows have distinct permalinks |
| `Routing.TwinsShareALink` | app/models/content.py:622-652 | Where there is a second such type a pair shares a permalink and at most one is read there |
| `RoutingCases.TwoPagesShareALink` | app/models/content.py:622-652 | Two registered types and two saves that make such a pair |
| `RoutingCases.CardIsNotServed` | app/controllers/site.py:202-241 | Two registered types and two saves that make an addressed block nothing serves |
| `Sections.Organization.SetSiteEntries` | app/models/organization.py:197-222 | The loop writes the decided entry of every offered type and touches no other |
| `Sections.DecisionReadsBack` | app/models/organization.py:172-222 | Every other key stands, the choice and place read back, and the choice is stored only where it differs from the type's own |
| `Sections.DecidingAgain` | app/models/organization.py:197-222 | The same form a second time stores the same |
| `FrontPage.ListSiteEntries` | app/platform/content_types.py:557-585 | The collecting loop and sort compute the advertised types by position, ties in registry order |
| `FrontPage.ShowsExactly` | app/platform/content_types.py:557-585 | A viewer is shown exactly the active archive types that are advertised and whose section they may read |
| `FrontPage.OtherAnswersStand` | app/models/organization.py:197-222 | The form decides nothing about whether a type is on, who reads it or whether it teases |
| `FrontPage.SectionsRoundTrip` | app/platform/content_types.py:557-585 | After the form a viewer of everything is shown exactly the offered slugs asked for, in order of first occurrence |
| `FrontPage.OffersAll` | app/platform/content_types.py:605-620 | The form offers every active type with an archive, once |
| `FrontPage.FormListsShownFirst` | app/platform/content_types.py:605-620 | The form lists what is shown, in its order, then the rest as registered |
| `FrontPage.ResubmittingIsAFixpoint` | app/models/organization.py:197-222 | Sending the form back as listed changes nothing shown or listed, and sending back the form listed then stores nothing new |
| `PasswordResets.Resets.IssueLink` | app/models/password_reset.py:176-217 | Refused or not, the whole new state: every outstanding link here spent, one new |
| `PasswordResets.Resets.RedeemLink` | app/models/password_reset.py:258-299 | Password and link change together or not at all |
| `PasswordResets.RunKeepsInv` | app/models/password_reset.py:176-299 | Over every interleaving at most one link per account and organization is unspent and every used one is listed once |
| `PasswordResets.AtMostOneValid` | app/models/password_reset.py:37-255 | In every reachable state at most one link is valid for an account, installation-wide |
| `PasswordResets.FindsExactly` | app/models/password_reset.py:220-255 | Which token opens which link, in full: its own, here, unspent, in its day, for a resettable account with the same password, its issuer still one who may |
| `PasswordResets.LinkWorksForADay` | app/models/password_reset.py:176-255 | A link issued by somebody who may is opened by its token through every run of other people's business for twenty-four hours |
| `PasswordResets.LinkEndsWithItsDay` | app/models/password_reset.py:176-255 | And from the tick that passes them on never, whatever else happens |
| `PasswordResets.TakenAwayAtOnce` | app/models/password_reset.py:37-135 | Switching the account off, making it a platform admin, ending or suspending its membership, a membership elsewhere, or ending, suspending or demoting the issuer ends the link at once |
| `PasswordResets.IssueSpendsOnly` | app/models/password_reset.py:176-217 | Issuing spends the account's links here and touches nothing else |
| `PasswordResets.RedeemSetsOnly` | app/models/password_reset.py:258-299 | Redeeming an unspent link gives its account a password nobody had and spends it, touching no other account or link; a spent one does nothing |
| `PasswordResets.SetsAtMostOnce` | app/models/password_reset.py:258-299 | Under any interleaving a link sets a password at most once |
| `PasswordResets.ChangeEndsEarlierLinks` | app/models/password_reset.py:220-255 | After any password change no earlier link is ever valid again |
| `PasswordResets.LateRedeemExactly` | app/models/password_reset.py:220-299 | After a password change, by whatever route, some run makes an earlier link set a password if and only if it is unspent and a request had found it |
| `PasswordResets.LateRedeemHappens` | app/models/password_reset.py:220-299 | A run in which one does |
| `PasswordResets.FromTheStart` | app/models/password_reset.py:37-299 | All of this from an installation that has issued no link |
| `Plugins.OrgPlugins.InstallPlugin` | app/platform/plugins.py:265-287 | The recursive install with its loop over requirements, every failure included; it ends because requirements come earlier in the load order |
| `Plugins.OrgPlugins.UninstallPlugin` | app/platform/plugins.py:290-308 | Refused exactly with an enabled dependent or a hook that raises |
| `Plugins.InstallHolds` | app/platform/plugins.py:265-287 | Failed or not, the enabled plugins stay closed under what they require, no pin changes, and success has the plugin on |
| `Plugins.InstallTouchesOnlyNeeded` | app/platform/plugins.py:265-287 | What the plugin does not need stays as it was |
| `Plugins.InstallPins` | app/platform/plugins.py:265-287 | A new plugin is pinned to the major asked for or its default, what it needs to their defaults, and a pinned one stays on its major |
| `Plugins.InstallTurnsOnAll` | app/platform/plugins.py:265-287 | A successful install has everything needed on |
| `Plugins.InstallUndoesUninstall` | app/platform/plugins.py:265-308 | A plugin that was on, uninstalled and installed again, leaves everything as it was |
| `Plugins.UninstallSucceedsExactly` | app/platform/plugins.py:290-308 | An uninstall succeeds if and only if nothing that requires the plugin is on and no hook raises, and touches that plugin alone |
| `Plugins.LoadedInOrder` | app/platform/plugins.py:85-92 | A load order that names each plugin once, after all it requires, is one an install ends on |
| `Plugins.InstallSucceedsExactly` | app/platform/plugins.py:265-287 | Success if and only if the major exists, every needed plugin has its default one and no hook still to run raises |
| `Plugins.RunKeepsClosed` | app/platform/plugins.py:265-340 | After every run of installs and uninstalls the enabled set is closed and every pin is what it first was |

## Left out

- Flask, Jinja, SQLAlchemy, SQL text and the tenant filter: tables are maps or sequences of rows.
- Orderings and pagination of listings other than the ladder, an item's blocks and the front page.
- HTML itself: the sanitiser, Markdown and the theme's partials are one opaque step.
- `:::embed` and `:::feed` directives, which add nothing to the marker argument.
- Accent folding and the Unicode cases of `lower` and `strip`.
- Queue rows deleted with their organization while a handler runs, and a handler deleting its own row.
- The update check's switch, the worker's sleep and the log.
- A crash inside the creation of a delivery, which commits the total before the recipient rows.
- Subscriber status changes: what the audience and each attempt's answer come from is a parameter.
- How a rate-limit key is made from a client's address.
- Renaming tiers and deleting organizations, the only operations that drop ladder rows.
- Two saves at once: the unique indexes refuse the second. A save here is one step.
- ContentTypes.Registry.Register: validity of a definition is its slug, kind and base; labels, ordering, group, icon and field specs are left out, because nothing proved here depends on them.
- Stash.StashThenRestore: one family with no rendering in between; `TwoRestores.BothRestoresPutBlocksBack` has both and a rendering.
- Field cleaning, templates, tags, categories, uploads and the length limits of text fields other than the title.
- `visible_children`, `with_tag` and `visible_in_category`, which filter by the rules proved here.
- Routes other than the site's own, and what the application mounts under its reserved prefixes.
- A refused new password (too short, too common), after which the link is still unspent.
- Accounts deleted while links are out.
- `upgrade` of a plugin, which is the one operation that changes a pin, and the import of plugin code.
- Discussion groups beyond the move they share with the ladder.
