# Tradutor.Ia: a verified model

Dafny models of eight parts of Tradutor.Ia, with proofs of what they promise. Each module follows one
source component; state the source updates in place is a class, whose methods are proved against
functions of the old state, and the lemmas are about those functions.

- `ReaderGeometry`, `ReaderCache`: the chapter reader. Where pages sit and which one a scroll offset means;
  and which decoded pages are held while renders, retries, chapter switches and late fetches interleave.
- `SourceRewrite`, `LineMap`: the import rewriter. Edits spliced last-first are a simultaneous substitution;
  syntax-tree coordinates become character offsets.
- `IntervalAccounting`: covered time and gaps of a job's timeline.
- `BetaLicense`: the licence store over whole runs, and the remote authorizer.
- `SlotPool`, `SlotManager`, `SlotRuns`: two browser slots shared by many workers, as interleaved steps and as
  objects, and that the two agree.
- `JobQueue`, `JobWorker`, `JobRuns`: a queue of marker files claimed by renaming, as interleaved steps and as
  objects, and that the two agree.
- `MaskGeometry`, `MaskGate`, `Composite`: masks as pixel sets, the two mask generators, the API gate that
  re-checks them, the compositor, and the quality and training decisions.
- `ServiceHealth`: a connection indicator that is a function of its history of probes.
- `EventWindow`: de-duplication against the last 4096 accepted ids.
- `Basics`, `Sorting`, `Utf8`: notions several modules share; UTF-8 is section 3 of RFC 3629.

Arithmetic is exact (integers and reals). Hashes are represented by whether they match. Lock-protected
methods and file renames are single steps, and so, by assumption, is creating a job up to placing its marker
(directory, upload and job file); everything else interleaves freely.

Where the code does not do what one would expect of it, it is modelled as it is, and the lemmas say when it does
(most of them exactly when) or give an input on which it does not:

- A viewport height more than half a pixel over a whole number lets scrolling down turn a page back, from 31
  pixels on (below 49 only at 47 and at one over a multiple of three); every other height, such as the whole
  ones `measure` sets, does not.
- Scrolling to a short page followed by a taller one may show the taller one as current.
- A form feed, a vertical tab, U+001C to U+001E, U+0085, U+2028 or U+2029 shifts the rewriter's offsets from the
  second character after it on, because `splitlines` breaks there and the parser does not.
- An event reaching outside the job breaks "accounted plus gaps is the wall time", and so does an event running
  backwards, unless it starts no later than zero or the first start, where an event that began before it still
  runs or just ends, or after the last end inside the job.
- Revoking a device that is not registered yet has no effect, and an unreadable start date does not delay a grant.
- On conflict `upsert_entitlement` returns an id that is not the one stored.
- A remote reply that names no user is accepted for the user who asked.
- A page lookup that fails outside the `try` loses its slot for good.
- One unusable event in a batch leaves the new events before it recorded but not delivered, and they are refused
  for the next 4096 acceptances.
- A form feed or its like inside an imported name makes the `fromlist` insertion cut the name.
- An empty upload leaves a directory behind that blocks its job id.
- A provider reply that is not valid base64 ends a job in review like a misplaced mask, not as failed.

## Model

| member | source | states |
|---|---|---|
| `ReaderGeometry.ScrollingDownNeverTurnsBackExactly` | static/chapter_reader.js:154-191 | scrolling down never moves the page counter back - any chapter, any sizes and zoom, both view modes, any two real scroll offsets, end-of-document rule included - if and only if the viewport height is at most half a pixel over a whole number, or too low for it (below 31, or below 49 and neither 47 nor one over a multiple of three) |
| `ReaderGeometry.UnsteadyTurnsBack` | static/chapter_reader.js:154-191 | for every other height, a chapter and two offsets between which scrolling down turns a page back |
| `ReaderGeometry.FractionalViewportTurnsBack` | static/chapter_reader.js:172-191 | one such height with its pages and offsets written out |
| `ReaderGeometry.BestMonotone` | static/chapter_reader.js:184-190 | at the heights above the half-pixel scan picks no earlier box at a later offset, and when it picks a later one that one leads by more than half a pixel |
| `ReaderGeometry.ClimbBackHeight` | static/chapter_reader.js:186-189 | three boxes in order can use the half-pixel threshold to climb back only if three times the middle height plus the gaps around it is less than half a pixel more than the viewport height |
| `ReaderGeometry.HeightClimbsBack` | static/chapter_reader.js:186-189 | and then they do, at the offsets given |
| `ReaderGeometry.ClimbsOnlyUnsteady` | static/chapter_reader.js:186-189 | in a layout, where every other box adds its height and a gap, no steady viewport height is that |
| `ReaderGeometry.LeadGrows` | static/chapter_reader.js:187-187 | the overlap lead of a later box over an earlier one never shrinks while scrolling down |
| `ReaderGeometry.ChosenPageIsBest` | static/chapter_reader.js:182-190 | unless the viewport reaches the last bottom edge less one pixel, no page shows more than half a pixel more than the chosen one |
| `ReaderGeometry.EndMeansLastPage` | static/chapter_reader.js:177-182 | with the end of the document at most a pixel below the viewport, the last page is meant, however little of it shows |
| `ReaderGeometry.SinglePageIsMeant` | static/chapter_reader.js:172-191 | the current page is meant in single mode and in a chapter without pages, wherever it is scrolled |
| `ReaderGeometry.OffsetReadsBackExactly` | static/chapter_reader.js:172-204 | scrolling to the offset of a page reads back as that page if and only if the end-of-document rule does not claim it for another and no later page shows over half a pixel more |
| `ReaderGeometry.ShortPageMayNotReadBack` | static/chapter_reader.js:172-204 | a short page above a taller one that does not read back |
| `ReaderGeometry.TallEnoughPageReadsBack` | static/chapter_reader.js:172-204 | a page whose doubled height plus the gap fills the viewport always reads back, short of the document end |
| `ReaderGeometry.BoxesFromStacked` | static/chapter_reader.js:154-168 | a layout keeps page order and leaves at least the gap between any two boxes |
| `ReaderGeometry.BoxesFromTight` | static/chapter_reader.js:154-168 | it starts at the top and puts exactly the gap between neighbours |
| `ReaderGeometry.StackBoxes` | static/chapter_reader.js:159-167 | the accumulating layout loop builds the stacked boxes |
| `ReaderGeometry.MostVisible` | static/chapter_reader.js:184-190 | the overlap loop finds the box of the half-pixel scan |
| `ReaderGeometry.ReaderState.constructor` | static/chapter_reader.js:36-56 | a closed reader: page 1 of no pages, continuous, width fit, zoom 1, no viewport |
| `ReaderGeometry.ReaderState.Accept` | static/chapter_reader.js:97-110 | an accepted document: its first page if it claims any, width fit, zoom 1; view mode and viewport stay |
| `ReaderGeometry.ReaderState.SetViewport` | static/chapter_reader.js:239-243 | the viewport is never negative and nothing else changes |
| `ReaderGeometry.ReaderState.Layout` | static/chapter_reader.js:154-168 | the boxes of the reader at its current scale and view mode |
| `ReaderGeometry.ReaderState.PageAt` | static/chapter_reader.js:172-191 | the page a scroll offset means |
| `ReaderGeometry.ReaderState.SetCurrentFromScroll` | static/chapter_reader.js:193-196 | the current page follows the scroll and nothing else changes |
| `ReaderGeometry.ReaderState.Goto` | static/chapter_reader.js:130-135 | the page is clamped to the chapter; an empty chapter keeps it |
| `ReaderGeometry.ReaderState.OffsetOf` | static/chapter_reader.js:199-204 | the top of the wanted page, 0 when the chapter claims a page it does not list |
| `ReaderGeometry.ReaderState.RenderWindow` | static/chapter_reader.js:207-215 | at most five pages, exactly those within two of the current one and inside the chapter |
| `ReaderGeometry.ReaderState.JumpAndSettle` | static/chapter_reader.js:515-527 | jumping to a listed page and handling the scroll it causes leaves the reader on that page if and only if its offset reads back |
| `ReaderGeometry.FitModesFit` | static/chapter_reader.js:65-74 | fit-to-width fills the width if and only if that scale is inside the zoom limits; fit-to-page fits inside the viewport if and only if its scale is not below them, and fills one side too if and only if it is not above them either |
| `ReaderGeometry.ManualZoom` | static/chapter_reader.js:65-74 | pages without a size, without a viewport to fit and under manual zoom are drawn at the zoom, cut to 0.25 and 4 |
| `ReaderGeometry.DrawnToTheNearestPixel` | static/chapter_reader.js:154-168 | a page is drawn at its scale to the nearest pixel, halves up; a page the chapter does not have, with no size |
| `ReaderGeometry.Sizing.PageScale` | static/chapter_reader.js:65-74 | every drawn scale lies within the zoom limits |
| `ReaderCache.NothingLeaks` | static/chapter_reader.js:329-515 | in every interleaving: at most five cached pages; a live object URL is cached or waits for its own `then`; a cached URL is the image its slot shows, loaded for the current chapter; an image without bytes is still loading |
| `ReaderCache.QuietMeansOnlyCached` | static/chapter_reader.js:462-587 | with no load between its bytes and its `then`, live URLs are exactly the cached ones; closing then leaves none |
| `ReaderCache.LoadedPageIsKept` | static/chapter_reader.js:470-478 | from any reachable state: bytes of the current chapter whose slot still shows their image are cached under it, stay live and on screen, and nothing else changes; with the slot gone they are revoked |
| `ReaderCache.StaleBytesDropped` | static/chapter_reader.js:338-339 | bytes of a chapter already left create no URL and change nothing shown |
| `ReaderCache.RefusedPage` | static/chapter_reader.js:447-480 | a refused page still shown gets a retry button; a rejected session sets the reader to the error state, showing no page; for a slot already gone nothing shown changes |
| `ReaderCache.RetryButtonExactly` | static/chapter_reader.js:447-480 | in every step a retry button appears if and only if the `then` of a page refused, but not for its session, runs with its slot still showing it |
| `ReaderCache.RenderExactly` | static/chapter_reader.js:486-515 | a render, page by page: with the pages shown unchanged every listed page of the window keeps its slot and cached URL; else it starts loading; every other page has neither slot content nor URL |
| `ReaderCache.SweepExactly` | static/chapter_reader.js:507-514 | the same of the loop over the slots |
| `ReaderCache.PagesExactly` | static/chapter_reader.js:489-489 | the pages with a slot: all listed ones, or the current one, of a ready chapter of images |
| `ReaderCache.RetryStartsLoading` | static/chapter_reader.js:674-679 | a retry starts the load of its page anew and touches no other slot |
| `ReaderCache.LeavingExactly` | static/chapter_reader.js:580-592 | opening and closing start a new token on an empty document |
| `ReaderCache.AcceptExactly` | static/chapter_reader.js:97-110 | a document with the current token makes the chapter ready on its first page; any other changes nothing |
| `ReaderCache.FailExactly` | static/chapter_reader.js:112-117 | only a failure with the current token sets the error state |
| `ReaderCache.RunOneMore` | static/chapter_reader.js:438-621 | a run with one more event is one more step |
| `ReaderCache.RenderKeepsInv` | static/chapter_reader.js:486-515 | after a render the filled slots are exactly the listed pages of the window, at most five |
| `ReaderCache.SweepSound` | static/chapter_reader.js:507-514 | visiting the slots empties every unwanted one, fills every wanted one, and leaks nothing |
| `ReaderCache.StepKeepsInv` | static/chapter_reader.js:438-621 | each event, synchronous or asynchronous, keeps the accounting invariant |
| `ReaderCache.RunKeepsInv` | static/chapter_reader.js:438-621 | so does every run of events |
| `ReaderCache.SettleKeepsInv` | static/chapter_reader.js:470-482 | the `then` callback keeps the accounting, whatever its load came to |
| `ReaderCache.ArriveKeepsInv` | static/chapter_reader.js:329-342 | arriving bytes keep it: a load of a chapter already left creates no URL |
| `ReaderCache.RetryKeepsInv` | static/chapter_reader.js:674-679 | retrying one failed page keeps it |
| `ReaderCache.LeaveKeepsInv` | static/chapter_reader.js:580-592 | releasing everything on open and close keeps it |
| `ReaderCache.Cache.Window` | static/chapter_reader.js:207-215 | the wanted pages as a set |
| `ReaderCache.PageView.constructor` | static/chapter_reader.js:280-320 | a closed reader with nothing cached |
| `ReaderCache.PageView.ReleaseAll` | static/chapter_reader.js:580-587 | revokes every cached URL and empties every slot |
| `ReaderCache.PageView.ReleasePage` | static/chapter_reader.js:438-443 | revokes and forgets one page, if cached |
| `ReaderCache.PageView.LoadPage` | static/chapter_reader.js:462-470 | starts one load for an empty slot, none for a filled one |
| `ReaderCache.PageView.RenderPages` | static/chapter_reader.js:486-515 | the render as specified |
| `ReaderCache.PageView.Stage` | static/chapter_reader.js:486-505 | its first part: the pages to show, with slots built anew when the signature changed |
| `ReaderCache.PageView.SweepSlots` | static/chapter_reader.js:507-514 | the loop over the slots |
| `ReaderCache.PageView.VisitSlot` | static/chapter_reader.js:511-513 | one slot: load, empty and release, or leave alone |
| `ReaderCache.PageView.WantedPages` | static/chapter_reader.js:207-215 | the window loop gives the wanted set |
| `ReaderCache.PageView.Open` | static/chapter_reader.js:589-593 | a new token, everything released, then a render |
| `ReaderCache.PageView.Accept` | static/chapter_reader.js:97-110 | a document is taken only with the current token |
| `ReaderCache.PageView.Fail` | static/chapter_reader.js:112-117 | a failure counts only with the current token |
| `ReaderCache.PageView.Close` | static/chapter_reader.js:119-128 | a new token and everything released |
| `ReaderCache.PageView.Retry` | static/chapter_reader.js:674-679 | a retry button becomes a new load |
| `ReaderCache.PageView.BytesArrive` | static/chapter_reader.js:329-342 | bytes of a stale load are dropped before a URL exists |
| `ReaderCache.PageView.RunThen` | static/chapter_reader.js:470-482 | the end of a load, by whether its image is still in the document |
| `SourceRewrite.RewriteIsSubstitution` | tools/repository_audit/apply_phase2_moves.py:241-243 | splicing non-overlapping edits last-first at their original offsets is the simultaneous substitution |
| `SourceRewrite.RewriteByPosition` | tools/repository_audit/apply_phase2_moves.py:241-243 | every untouched character survives at its offset moved by the growth before it, every replacement stands at its pushed offset, and the length is accounted for |
| `SourceRewrite.RewriteSurvives` | tools/repository_audit/apply_phase2_moves.py:241-243 | one untouched character of the text |
| `SourceRewrite.CharacterSurvives` | tools/repository_audit/apply_phase2_moves.py:241-243 | the same by induction on the edits |
| `SourceRewrite.ReplacementsStand` | tools/repository_audit/apply_phase2_moves.py:241-243 | the replacements, by induction on the edits |
| `SourceRewrite.RewriteIgnoresOrder` | tools/repository_audit/apply_phase2_moves.py:194-243 | the order in which the tree walk collects the edits is irrelevant |
| `SourceRewrite.OverlapCorrupts` | tools/repository_audit/apply_phase2_moves.py:241-243 | overlapping edits are not a substitution: a concrete pair mixes its replacements |
| `SourceRewrite.BackwardsIsSubstitution` | tools/repository_audit/apply_phase2_moves.py:241-243 | the backwards splice of an ordered chain of edits is the forward copy-and-replace |
| `SourceRewrite.SortedChained` | tools/repository_audit/apply_phase2_moves.py:242-242 | sorting non-overlapping edits, touching insertions included, puts each before the next |
| `SourceRewrite.LeTotal` | tools/repository_audit/apply_phase2_moves.py:242-242 | the order of edit tuples is total |
| `Sorting.AscendingUnique` | tools/repository_audit/apply_phase2_moves.py:242-242 | under a total order one multiset has one sorted list |
| `Sorting.SortedAscending` | tools/repository_audit/apply_phase2_moves.py:242-242 | sorting sorts |
| `SourceRewrite.RewriteText` | tools/repository_audit/apply_phase2_moves.py:241-243 | the splice loop computes the substitution |
| `LineMap.PosExactlyWhenHarmless` | tools/repository_audit/apply_phase2_moves.py:184-192 | `pos` recovers every character offset from its parser coordinates if and only if every separator only `splitlines` knows is last or just before a final newline |
| `LineMap.PosExactly` | tools/repository_audit/apply_phase2_moves.py:184-192 | `pos` recovers one character offset from its parser coordinates if and only if no separator only `splitlines` knows lies before it, other than just before it |
| `LineMap.CharsWithinExactly` | tools/repository_audit/apply_phase2_moves.py:189-192 | a byte column inside a line is n characters if and only if the UTF-8 bytes of the first n number that column |
| `LineMap.CharsWithinDecodes` | tools/repository_audit/apply_phase2_moves.py:191-191 | it is encode, cut and decode, with `None` where decoding raises |
| `Utf8.DecodeExactly` | tools/repository_audit/apply_phase2_moves.py:191-191 | bytes decode to a text if and only if they are its encoding: cut, malformed and overlong bytes raise |
| `Utf8.CutDecodes` | tools/repository_audit/apply_phase2_moves.py:191-191 | cutting an encoded text decodes to its first n characters if those take that many bytes, and raises when no number of characters does |
| `LineMap.ParserCoordMeans` | tools/repository_audit/apply_phase2_moves.py:184-192 | the coordinates of an offset as the parser gives them: newlines before it, and UTF-8 bytes since the last |
| `LineMap.ExoticCodes` | tools/repository_audit/apply_phase2_moves.py:184-184 | the separators only `splitlines` knows, by code point |
| `LineMap.SeparatorMisplaces` | tools/repository_audit/apply_phase2_moves.py:184-192 | such a separator at the start misplaces every offset after the next one |
| `LineMap.LinesBehind` | tools/repository_audit/apply_phase2_moves.py:184-192 | the lines `splitlines` counts before the parser line of an offset end before it |
| `LineMap.PosMonotone` | tools/repository_audit/apply_phase2_moves.py:189-192 | however lines were split, `pos` keeps the order of coordinates |
| `LineMap.PosInText` | tools/repository_audit/apply_phase2_moves.py:189-192 | `pos` never leaves the text |
| `LineMap.CharsMonotone` | tools/repository_audit/apply_phase2_moves.py:191-191 | characters within a byte column grow with the column |
| `LineMap.CollectEdits` | tools/repository_audit/apply_phase2_moves.py:194-238 | the edit list: one replacement per node in order, with the `fromlist` insertion before the end of a call that needs it; none at all when a coordinate does not convert |
| `LineMap.SitesSubstitute` | tools/repository_audit/apply_phase2_moves.py:184-243 | however lines were split: the edits of nodes nested as a syntax tree nests them, `fromlist` insertions included, do not overlap if and only if no call end converts to the end of a replacement of two characters or more, and then they are rewritten as one simultaneous substitution |
| `LineMap.ApartExactly` | tools/repository_audit/apply_phase2_moves.py:194-238 | the same for nodes in characters: the only overlap is an insertion cutting a replacement |
| `LineMap.InsertionCuts` | tools/repository_audit/apply_phase2_moves.py:184-237 | a form feed or its like inside the imported name does that |
| `LineMap.SiteExactly` | tools/repository_audit/apply_phase2_moves.py:184-237 | a node converts back to exactly the characters the parser saw if and only if the text is clean up to its end |
| `LineMap.NodesRewritten` | tools/repository_audit/apply_phase2_moves.py:184-243 | from characters to characters: nodes nested as a syntax tree nests them, in a text clean up to their ends, do not overlap and are rewritten as one simultaneous substitution of exactly those characters |
| `LineMap.PlainNodeRewritten` | tools/repository_audit/apply_phase2_moves.py:194-243 | a rewritten node is its text before, the replacement, its text after |
| `LineMap.CallNodeRewritten` | tools/repository_audit/apply_phase2_moves.py:226-243 | a call without `fromlist` also gets it just before its closing parenthesis |
| `IntervalAccounting.IntervalUnion` | tools/harnesses/performance_validation_harness.py:21-38 | the union is the number of unit cells some well-formed interval covers |
| `IntervalAccounting.MergeSorted` | tools/harnesses/performance_validation_harness.py:28-38 | the merge measures sorted intervals |
| `IntervalAccounting.MergeLoop` | tools/harnesses/performance_validation_harness.py:30-38 | the merge loop |
| `IntervalAccounting.MergedFromMeasures` | tools/harnesses/performance_validation_harness.py:30-38 | its running total is the measure of the current block with all intervals to come |
| `IntervalAccounting.CoveredIgnoresOrder` | tools/harnesses/performance_validation_harness.py:21-38 | covered time depends only on which intervals there are, not on order or repeats |
| `IntervalAccounting.FindGaps` | tools/harnesses/performance_validation_harness.py:237-244 | the gap loop |
| `IntervalAccounting.Account` | tools/harnesses/performance_validation_harness.py:217-244 | one job from its recorded events, start-up and finalization added: accounted time plus gap time is never below the wall time, and is the wall time if and only if the forward events, start-up and finalization lie inside the job and every backwards event starts no later than zero or the first start, where an event that began before it still runs or just ends, or after the last end but inside the job |
| `IntervalAccounting.AccountableMeans` | tools/harnesses/performance_validation_harness.py:222-235 | that condition on the recorded events is the condition on what the union and the gap loop are given |
| `IntervalAccounting.GapsAreTheUncoveredTime` | tools/harnesses/performance_validation_harness.py:237-244 | where the cursor passes every event running backwards: gaps are disjoint and exactly the time no forward event covers, up to the end of the job or of the last of them |
| `IntervalAccounting.GapsAndUnionMakeTheWall` | tools/harnesses/performance_validation_harness.py:236-244 | for any events handed to the union and the gap loop: accounted time plus gap time is never below the wall time, and is the wall time if and only if every forward event lies inside the job and the cursor passes the start of every backwards one |
| `IntervalAccounting.BackwardsOnlyAdd` | tools/harnesses/performance_validation_harness.py:237-244 | events running backwards never shorten the gaps, and keep their total if and only if the cursor reaches each before it comes |
| `IntervalAccounting.ReachedMeans` | tools/harnesses/performance_validation_harness.py:237-244 | the cursor passes an event, in sorted order, if and only if it starts no later than the cursor began or where an event that began before it still runs or just ends |
| `IntervalAccounting.ReachedSorted` | tools/harnesses/performance_validation_harness.py:239-239 | so passing does not depend on the order events come in |
| `IntervalAccounting.UnionOfForwards` | tools/harnesses/performance_validation_harness.py:21-38 | the interval union of recorded events is what those not running backwards cover |
| `IntervalAccounting.OnlyInnerTimeIsUnaccounted` | tools/harnesses/performance_validation_harness.py:217-244 | for accountable events, backwards ones included, the gaps are disjoint and exactly the time between first start and last end, inside the job, that no forward event covers |
| `IntervalAccounting.BackwardsEventDoubleCounts` | tools/harnesses/performance_validation_harness.py:217-244 | an event running backwards for which start-up and finalization do nothing and the gap loop reports time twice |
| `IntervalAccounting.BackwardsEventHarmless` | tools/harnesses/performance_validation_harness.py:217-244 | and one that start-up absorbs |
| `BetaLicense.AllowedExactly` | yomu/auth/beta_license.py:505-686 | access if and only if the grant is in force, the time is in the half-open window, and the device is live or fits the cap; coherent on every path |
| `BetaLicense.DeniedExactly` | yomu/auth/beta_license.py:505-686 | which reason and which state a denial carries, on every path |
| `BetaLicense.RefusalExactly` | yomu/auth/beta_license.py:640-686 | a row denies exactly outside its grant and window, and for the first of its faults |
| `BetaLicense.TablesExactly` | yomu/auth/beta_license.py:505-637 | what a request writes, and whom, what and when its decision names |
| `BetaLicense.UpsertExactly` | yomu/auth/beta_license.py:447-491 | a grant replaces everything but the id of its own row, and no other row |
| `BetaLicense.RevokeExactly` | yomu/auth/beta_license.py:493-503 | a revocation marks one known device and nothing else |
| `BetaLicense.AllowedTimesAreAWindow` | yomu/auth/beta_license.py:640-686 | for a live device under a grant in force the allowed times are exactly the window; an unreadable start does not delay it |
| `BetaLicense.AskingAgainChangesNothing` | yomu/auth/beta_license.py:505-637 | repeating a request at the same time gives the same decision and the same tables |
| `BetaLicense.RegistrationsAreTheDevices` | yomu/auth/beta_license.py:601-628 | over every run, registration events and device rows correspond one to one |
| `BetaLicense.RegisteringRespectsTheCap` | yomu/auth/beta_license.py:585-634 | a registering request leaves the active devices within that entitlement |
| `BetaLicense.CapHoldsOverRuns` | yomu/auth/beta_license.py:447-637 | over every run and any channels, a user never granted more than `cap` devices never has more active ones |
| `BetaLicense.BannedStaysBanned` | yomu/auth/beta_license.py:493-503 | no operation lifts a revocation |
| `BetaLicense.RevocationIsFinalExactlyWhenRegistered` | yomu/auth/beta_license.py:493-562 | a revocation bars the device for ever if and only if it was registered before; otherwise it is forgotten |
| `BetaLicense.ValidateFailsClosed` | yomu/auth/beta_license.py:704-731 | whatever the response, an allowed result is active and comes from fields that say so |
| `BetaLicense.ValidateExactly` | yomu/auth/beta_license.py:704-731 | a response with a named state that goes with its `allowed` is taken over, its empty reason, time and source filled in; every other is malformed, for the reason given |
| `BetaLicense.NamesExactly` | yomu/auth/beta_license.py:24-35 | the text that names each state, and no other does |
| `BetaLicense.ListReadsAsFirst` | yomu/auth/beta_license.py:231-309 | of a reply that is a list only the first element counts; an empty one names no state |
| `BetaLicense.RemoteAllowedExactly` | yomu/auth/beta_license.py:231-309 | the remote path allows exactly an authenticated user with a token and a readable, active, allowed reply for that user or for none |
| `BetaLicense.RemoteDeniedExactly` | yomu/auth/beta_license.py:231-309 | which reason and state a remote denial carries, and which may be tried again: no token, no answer, 429 and from 500 on |
| `BetaLicense.RemoteNames` | yomu/auth/beta_license.py:231-309 | whom a remote denial names: nobody when the session is not known, no device without a token |
| `BetaLicense.MetadataReadsBackExactly` | yomu/auth/beta_license.py:109-122 | a decision stored as metadata reads back as itself if and only if reason, time and source are non-empty |
| `BetaLicense.SQLiteBetaLicenseStore.constructor` | yomu/auth/beta_license.py:386-445 | an empty store |
| `BetaLicense.SQLiteBetaLicenseStore.UpsertEntitlement` | yomu/auth/beta_license.py:447-491 | one row per user and channel; the id returned is the stored one exactly when no other row stood there |
| `BetaLicense.SQLiteBetaLicenseStore.RevokeDevice` | yomu/auth/beta_license.py:493-503 | marks an existing device, ignores an unknown one |
| `BetaLicense.SQLiteBetaLicenseStore.Authorize` | yomu/auth/beta_license.py:505-637 | the transaction: decision and tables, keeping events and rows in step |
| `BetaLicense.SQLiteBetaLicenseStore.Decide` | yomu/auth/beta_license.py:513-634 | its body |
| `SlotPool.ExclusiveSlotsAndRisingGenerations` | deploy/vps/multi_slot_manager.py:75-133 | in every interleaving: one owner per slot, at most two calls holding slots, generation numbers strictly rising per slot |
| `SlotPool.OutOfServiceForGood` | deploy/vps/two_slot_browser.py:109-146 | a broken, rotating or lost slot is never acquired again |
| `SlotPool.FinishAccordingToOutcome` | deploy/vps/two_slot_browser.py:135-146 | a call that reaches `finally` leaves its slot unowned, and idle, broken or rotating exactly by its outcome |
| `SlotPool.ProceedExactly` | deploy/vps/two_slot_browser.py:78-128 | the slot calls of the `try` block in order: state by state, one generation number before the prompt is sent, nothing else of the slot |
| `SlotPool.ExceptExactly` | deploy/vps/two_slot_browser.py:109-134 | a raise, the rotation of a stale image and the `except` block, each at its place |
| `SlotPool.OutOfTurn` | deploy/vps/two_slot_browser.py:59-146 | an event that is not due changes nothing |
| `SlotPool.FailedLookupLosesTheSlot` | deploy/vps/two_slot_browser.py:63-66 | a call that dies looking up its page, outside the `try`, leaves its slot acquired and ownerless, and no later run of events gives it to any call |
| `SlotPool.TwoLossesStopTheService` | deploy/vps/two_slot_browser.py:63-66 | with both slots out of service no later request ever gets one |
| `SlotPool.StepKeepsInv` | deploy/vps/two_slot_browser.py:59-146 | each step of any call keeps ownership, phase and slot state in agreement |
| `SlotPool.RunKeepsInv` | deploy/vps/two_slot_browser.py:59-146 | so does every run |
| `SlotPool.FirstFree` | deploy/vps/multi_slot_manager.py:77-85 | the first healthy idle unowned slot in dictionary order, or none |
| `SlotManager.SlotRecord.constructor` | deploy/vps/multi_slot_manager.py:16-30 | an idle slot |
| `SlotManager.MultiSlotManager.constructor` | deploy/vps/multi_slot_manager.py:38-46 | two distinct slots |
| `SlotManager.MultiSlotManager.Acquire` | deploy/vps/multi_slot_manager.py:75-85 | takes the first free slot for the job, or reports none and changes nothing |
| `SlotManager.MultiSlotManager.Transition` | deploy/vps/multi_slot_manager.py:87-92 | one state changes |
| `SlotManager.MultiSlotManager.Release` | deploy/vps/multi_slot_manager.py:94-103 | state set, ownership cleared |
| `SlotManager.MultiSlotManager.MarkBroken` | deploy/vps/multi_slot_manager.py:105-112 | unhealthy, broken, unowned |
| `SlotManager.MultiSlotManager.MarkRotation` | deploy/vps/multi_slot_manager.py:135-139 | needs rotation, counted |
| `SlotManager.MultiSlotManager.NextGeneration` | deploy/vps/multi_slot_manager.py:129-133 | the next number, returned |
| `SlotManager.TwoSlotProvider.constructor` | deploy/vps/two_slot_browser.py:18-20 | a provider over a manager |
| `SlotManager.TwoSlotProvider.SubmitAndRecover` | deploy/vps/two_slot_browser.py:59-146 | a whole call, for every point where the browser may raise: without a fresh image after the generation number its slot needs rotation, counted once and as healthy as before; else a raise leaves it broken and unhealthy; else it is idle; the generation is one more exactly when the call got that far; the outcome reported is the same three; a missing page keeps the slot; the other slot is untouched |
| `SlotManager.TwoSlotProvider.TryBlock` | deploy/vps/two_slot_browser.py:69-134 | the slot calls of the `try` block up to where it raises; rotation exactly for a stale image, no raise exactly past the last call |
| `SlotManager.TwoSlotProvider.Generate` | deploy/vps/two_slot_browser.py:97-134 | those from taking the generation number on |
| `SlotManager.EndingMeans` | deploy/vps/two_slot_browser.py:109-146 | how a call that found its page leaves its slot, by the same three cases |
| `SlotRuns.CallIsARun` | deploy/vps/two_slot_browser.py:59-146 | what a whole call leaves behind is what a run of the interleaved steps leaves behind, from any state of the pool |
| `SlotRuns.Proceeds` | deploy/vps/two_slot_browser.py:78-128 | the slot calls of the `try` block, one step each |
| `SlotRuns.TailEnds` | deploy/vps/two_slot_browser.py:109-146 | how the steps after the `try` block leave slot and call |
| `JobQueue.EveryInterleaving` | research/gemini_vps_web_worker/storage.py:19-96 | in every interleaving: each placed job in exactly one directory, final directories agreeing with status, each processing job held by one worker, no job claimed twice |
| `JobQueue.FinishedForGood` | research/gemini_vps_web_worker/storage.py:92-96 | a finished job keeps directory and status whatever happens later |
| `JobQueue.CreatedJobWaits` | research/gemini_vps_web_worker/storage.py:19-60 | a new job waits in pending, queued; creating it again changes nothing |
| `JobQueue.ProgressExactly` | research/gemini_vps_web_worker/worker.py:22-39 | a busy worker writes intermediate statuses only |
| `JobQueue.StepKeepsInv` | research/gemini_vps_web_worker/worker.py:17-52 | each step keeps the queue invariant |
| `JobQueue.RunKeepsInv` | research/gemini_vps_web_worker/worker.py:17-52 | so does every run |
| `JobQueue.ClaimKeepsInv` | research/gemini_vps_web_worker/storage.py:79-89 | a claim moves one marker into the hands of one worker |
| `JobQueue.MoveKeepsInv` | research/gemini_vps_web_worker/storage.py:92-96 | the final move agrees with the status written before it |
| `JobWorker.JobStore.constructor` | research/gemini_vps_web_worker/storage.py:13-17 | an empty store |
| `JobWorker.JobStore.Create` | research/gemini_vps_web_worker/storage.py:19-47 | a new job is queued once, an existing one returned untouched; an empty upload raises and leaves a directory that makes later uploads under its id raise too |
| `JobWorker.JobStore.Update` | research/gemini_vps_web_worker/storage.py:68-74 | one status changes |
| `JobWorker.JobStore.ClaimNext` | research/gemini_vps_web_worker/storage.py:76-90 | claims the first listed name still pending, skipping names already taken |
| `JobWorker.JobStore.MoveMarker` | research/gemini_vps_web_worker/storage.py:92-96 | moves the marker out of processing, if it is there |
| `JobWorker.JobRunner.constructor` | research/gemini_vps_web_worker/worker.py:13-15 | a worker over a store |
| `JobWorker.EndingOf` | research/gemini_vps_web_worker/worker.py:22-51 | login needed, review and failure follow the kind of the exception wherever it was raised; completed takes everything the training decision asks for |
| `JobWorker.Judge` | research/gemini_vps_web_worker/worker.py:32-37 | validation raises, accepts and records the training decision as the ending says |
| `JobWorker.JobRunner.Work` | research/gemini_vps_web_worker/worker.py:22-39 | how the `try` block ends, for every attempt and kind of exception |
| `JobWorker.JobRunner.Recover` | research/gemini_vps_web_worker/worker.py:28-39 | from the returned picture on |
| `JobWorker.JobRunner.Validate` | research/gemini_vps_web_worker/worker.py:32-39 | validation, decision and status |
| `JobWorker.JobRunner.Finish` | research/gemini_vps_web_worker/worker.py:35-51 | final status and final directory agree on every exit path |
| `JobWorker.JobRunner.RunOnce` | research/gemini_vps_web_worker/worker.py:17-52 | one job leaves pending for the directory of its final status: authentication needed and other errors to failed, bad values and anything short of acceptance to review, completed if and only if everything the training decision asks for holds; nothing else changes |
| `JobRuns.RunOnceIsARun` | research/gemini_vps_web_worker/worker.py:17-52 | what it leaves behind is what a run of the interleaved steps leaves behind, from any state of the queue |
| `JobRuns.ScanRun` | research/gemini_vps_web_worker/storage.py:76-90 | the claim loop as steps claims the first listed name still pending |
| `JobRuns.FinishRun` | research/gemini_vps_web_worker/worker.py:35-51 | the rest of it as steps |
| `MaskGeometry.MaskAndReport` | research/gemini_vps_web_worker/authorized_mask.py:41-129 | the mask stays in the line envelopes and off protected pixels; the report passes if and only if there are lines, all own seed pixels, the seed is covered and nothing was clipped |
| `MaskGeometry.ReportMeans` | research/gemini_vps_web_worker/authorized_mask.py:96-129 | the report read in terms of evidence, clipping and seed coverage |
| `MaskGeometry.ReportHonest` | research/gemini_vps_web_worker/authorized_mask.py:96-129 | every figure of a report: pixels counted, ratios to the nearest millionth, a line passing from 98 percent of its evidence on, the overall ratio no larger than any |
| `MaskGeometry.MaskExactly` | research/gemini_vps_web_worker/authorized_mask.py:61-90 | the mask before clipping, pixel by pixel: in a line envelope, near an owned seed or outline pixel |
| `MaskGeometry.OutlineExactly` | research/gemini_vps_web_worker/authorized_mask.py:61-82 | what a line adds: bright pixels of its envelope near its own seed |
| `MaskGeometry.EvidenceExactly` | research/gemini_vps_web_worker/authorized_mask.py:61-82 | what a line must have covered: pixels of its envelope near its own seed or outline |
| `MaskGeometry.EnvelopeExactly` | research/gemini_vps_web_worker/authorized_mask.py:61-90 | envelopes and outlines of all lines are those of some line |
| `MaskGeometry.SupportedOutlineKept` | research/gemini_vps_web_worker/authorized_mask.py:67-90 | a bright pixel near a dark one of its line is in the mask and in the evidence |
| `MaskGeometry.HalvesToEven` | research/gemini_vps_web_worker/authorized_mask.py:108-121 | `round(x, 6)` is the nearest number of millionths, the even one of two |
| `MaskGeometry.EvidenceInside` | research/gemini_vps_web_worker/authorized_mask.py:61-90 | unclipped, every line's evidence lies in the mask |
| `MaskGeometry.EvidenceNeedsSeed` | research/gemini_vps_web_worker/authorized_mask.py:67-82 | a line has evidence if and only if its envelope holds a seed pixel |
| `MaskGeometry.OwnedSeedKept` | research/gemini_vps_web_worker/authorized_mask.py:83-90 | the owned seed survives expansion |
| `MaskGeometry.Round6Monotone` | research/gemini_vps_web_worker/authorized_mask.py:108-121 | rounding to six digits keeps order |
| `MaskGeometry.Round6Near` | research/gemini_vps_web_worker/authorized_mask.py:108-121 | a rounded value is within half a millionth |
| `MaskGeometry.Round6KeepsThreshold` | research/gemini_vps_web_worker/authorized_mask.py:108-121 | rounding never pushes a ratio below the minimum |
| `MaskGeometry.CompleteOwnedGlyphMask` | research/gemini_vps_web_worker/authorized_mask.py:41-129 | the computation of mask and report |
| `MaskGeometry.CollectEvidence` | research/gemini_vps_web_worker/authorized_mask.py:61-82 | the loop over the lines |
| `MaskGeometry.MeasureCoverage` | research/gemini_vps_web_worker/authorized_mask.py:91-129 | clipping and the report |
| `MaskGeometry.MeasureLines` | research/gemini_vps_web_worker/authorized_mask.py:96-110 | the loop over the evidence |
| `MaskGate.ResolveExactly` | research/gemini_vps_web_worker/authorized_mask.py:146-162 | a group is chosen if and only if it is not SFX and was asked for, or is the only candidate when none was |
| `MaskGate.RejectionExactly` | research/gemini_vps_web_worker/authorized_mask.py:146-162 | why no group is chosen |
| `MaskGate.GuardExactly` | research/gemini_vps_web_worker/authorized_mask.py:178-183 | what is guarded: the padded lines of every other group |
| `MaskGate.SfxExactly` | research/gemini_vps_web_worker/authorized_mask.py:199-204 | what is kept from every mask: the text of every sound effect |
| `MaskGate.LineGeometryExactly` | research/gemini_vps_web_worker/authorized_mask.py:25-38 | what a group's padded lines reach |
| `MaskGate.PassingMaskIsAcceptedAndHarmless` | research/gemini_vps_web_worker/app.py:61-102 | every passing mask of a named region goes through the gate and touches no other group and no sound effect |
| `MaskGate.PassingReportPassesGate` | research/gemini_vps_web_worker/app.py:66-102 | a passing report made for one region and submitted for another goes through the gate if and only if there is a group id and both name the same region, rounding and minima included |
| `MaskGate.NoReportFailsGate` | research/gemini_vps_web_worker/app.py:66-102 | without a passing report the gate refuses |
| `MaskGate.GateRefusesExactly` | research/gemini_vps_web_worker/app.py:66-102 | the gate refuses exactly a defective coverage: any one field missing, below its minimum or naming another region, in the whole, a group or a line |
| `MaskGate.CompleteGroup` | research/gemini_vps_web_worker/authorized_mask.py:219-233 | one group completed: inside its envelopes, off everything protected, and what the gate will say of it |
| `MaskGate.Certainty` | research/gemini_vps_web_worker/authorized_mask.py:412-417 | a passing confidence needs OCR support of its own: components and core share never make up for it |
| `MaskGate.CertaintyMeans` | research/gemini_vps_web_worker/authorized_mask.py:412-418 | it is the weighted sum of OCR support, core share and components up to twenty, to half a millionth |
| `MaskGate.FirstCertaintyMeans` | research/gemini_vps_web_worker/authorized_mask.py:245-249 | the first generator's threshold, by the OCR confidence it takes |
| `MaskGate.ReasonsExactly` | research/gemini_vps_web_worker/authorized_mask.py:357-372 | what each reason code stands for |
| `MaskGate.PromotedWithoutReason` | research/gemini_vps_web_worker/authorized_mask.py:357-379 | an unknown group is promoted if and only if everything speaks for it |
| `MaskGate.Consider` | research/gemini_vps_web_worker/authorized_mask.py:328-382 | the classes the second generator tries |
| `MaskGate.CompleteTarget` | research/gemini_vps_web_worker/authorized_mask.py:217-233 | the target group completed if usable and completable: its whole unclipped mask, and a report the gate takes exactly then |
| `MaskGate.Assemble` | research/gemini_vps_web_worker/authorized_mask.py:235-254 | what a generator returns: passing exactly an accepted source, at most 12 percent of the page, certain enough |
| `MaskGate.GenerateV1` | research/gemini_vps_web_worker/authorized_mask.py:186-283 | first generator: it accepts a source if and only if the chosen group is of an eligible class and can be completed, the mask is then the whole completed mask and the gate accepts its report; it passes if and only if the mask is at most 12 percent of the page and the confidence at least 0.65 |
| `MaskGate.GenerateUsable` | research/gemini_vps_web_worker/authorized_mask.py:383-445 | the second generator once it is known whether the group is usable |
| `MaskGate.GenerateV2` | research/gemini_vps_web_worker/authorized_mask.py:286-445 | second generator: the same, with unknown groups promoted when nothing speaks against it, a core left over, and the confidence at least 0.75 |
| `Composite.AuthorizedRegion` | research/gemini_vps_web_worker/validation.py:60-94 | an authorized region is non-empty, at most 34 percent of the page, on the page, and exactly the opaque mask pixels where the mask belongs |
| `Composite.AuthorizedExactly` | research/gemini_vps_web_worker/validation.py:60-94 | a mask authorizes a region if and only if it belongs on the page and its opaque pixels, moved there, are that region, at least one pixel and at most 34 percent |
| `Composite.MisplacedExactly` | research/gemini_vps_web_worker/validation.py:60-82 | the reason a mask that does not belong is refused for |
| `Composite.CoveringExactly` | research/gemini_vps_web_worker/validation.py:83-91 | and one that does: covering nothing, everything, too much |
| `Composite.CropAuthorizesTheSame` | research/gemini_vps_web_worker/validation.py:60-94 | a page mask and its crop authorize the same pixels or fail alike |
| `Composite.ComposedChangesOnlyInside` | research/gemini_vps_web_worker/validation.py:204-211 | on every pixel of the page the composite is the generated picture inside the region and the original outside, so nothing changed is counted outside |
| `Composite.ChangedOutsideMeans` | research/gemini_vps_web_worker/validation.py:207-211 | what is counted outside: every pixel of the page off the region that differs |
| `Composite.SameShapeExactly` | research/gemini_vps_web_worker/validation.py:196-202 | the aspect check, in whole numbers: sides proportional to a thousandth, which equal sizes always are |
| `Composite.MissingGateMeans` | research/gemini_vps_web_worker/validation.py:24-38 | the decision is positive if and only if no gate is missing, and a reported gate is one that failed |
| `Composite.GateNamed` | research/gemini_vps_web_worker/validation.py:24-38 | which gate a refusal names: the first missing one, in order |
| `Composite.CheckList` | research/gemini_vps_web_worker/validation.py:24-35 | the training decision is all eight gates |
| `Composite.Judged` | research/gemini_vps_web_worker/validation.py:248-259 | the quality of a composed page in every case: identity, change outside, seam, residual text, inconclusive, acceptable, in that order; and acceptable exactly when the training decision takes it |
| `Composite.ComposeAndJudge` | research/gemini_vps_web_worker/validation.py:204-259 | composing shows the generated picture on every pixel of the region and the original on every other, and judging counts zero changes outside |
| `Composite.Validate` | research/gemini_vps_web_worker/validation.py:147-271 | the whole sequence of early returns, given shape and placement: what raises, each quality, the picture saved |
| `Composite.ValidateAndComposite` | research/gemini_vps_web_worker/validation.py:147-271 | raises exactly for an unreadable picture or a needed mask misplaced; the quality of every other submission; a saved picture shows the generated one on every authorized pixel and the original elsewhere; acceptable exactly for what the training decision takes; outside-mask-changed is unreachable |
| `ServiceHealth.ConnectedExactly` | static/service_health.js:33-57 | connected if and only if a counted success at most 14000 ms old is followed by no success and at most one failure |
| `ServiceHealth.DisconnectedExactly` | static/service_health.js:33-57 | disconnected if and only if the last two counted probes failed or the last success is more than 14000 ms old |
| `ServiceHealth.CountedExactly` | static/service_health.js:38-55 | the completion of the newest probe started counts, with its verdict and time, and no other does |
| `ServiceHealth.ConnectingExactly` | static/service_health.js:27-57 | connecting if and only if nothing counted succeeded and at most one failed |
| `ServiceHealth.OvertakenProbeIsIgnored` | static/service_health.js:47-48 | the completion of an overtaken probe changes nothing, whenever it comes |
| `ServiceHealth.TrailingFailures` | static/service_health.js:49-55 | failures in a row are those after the last success |
| `ServiceHealth.Indicator.constructor` | static/service_health.js:26-31 | connecting, with no history |
| `ServiceHealth.Indicator.Current` | static/service_health.js:33-36 | what the history says is shown now |
| `ServiceHealth.Indicator.Begin` | static/service_health.js:38-39 | a new newest probe |
| `ServiceHealth.Indicator.Finish` | static/service_health.js:40-57 | the four variables stay a function of the history |
| `EventWindow.AcceptancesAreSpread` | research/gemini_vps_web_worker/discord_observability.py:114-126 | two acceptances of one id have at least 4096 others between them |
| `EventWindow.WindowHasNoRepeats` | research/gemini_vps_web_worker/discord_observability.py:120-125 | the table holds each id once |
| `EventWindow.RecordsNothingExactly` | research/gemini_vps_web_worker/discord_observability.py:129-150 | feeding events records nothing if and only if every usable one is among the last 4096 accepted |
| `EventWindow.RecordedThenRefused` | research/gemini_vps_web_worker/discord_observability.py:129-150 | an id accepted in a batch is refused again within the next 4096 acceptances: an event of a refused batch is lost |
| `EventWindow.MoreArrivals` | research/gemini_vps_web_worker/discord_observability.py:114-126 | further arrivals only append acceptances |
| `EventWindow.FeedMeans` | research/gemini_vps_web_worker/discord_observability.py:130-134 | a batch appends its usable ids and accepts them by the window rule |
| `EventWindow.IdsExactly` | research/gemini_vps_web_worker/discord_observability.py:114-135 | the ids a batch offers: those of its recognized events that have one |
| `EventWindow.IdsInOrder` | research/gemini_vps_web_worker/discord_observability.py:130-135 | in the order of the batch |
| `EventWindow.LastMeans` | research/gemini_vps_web_worker/discord_observability.py:123-125 | the window is the longest suffix of at most that many |
| `EventWindow.Evict` | research/gemini_vps_web_worker/discord_observability.py:124-125 | eviction keeps the newest 4096 |
| `EventWindow.Ingress.constructor` | research/gemini_vps_web_worker/discord_observability.py:18-18 | an empty table |
| `EventWindow.Ingress.Accept` | research/gemini_vps_web_worker/discord_observability.py:114-126 | an id is refused if and only if it is among the last 4096 accepted, which is what the table holds, in order |
| `EventWindow.Ingress.OfferUntilOffending` | research/gemini_vps_web_worker/discord_observability.py:134-134 | the batch loop stops at the first item that raises |
| `EventWindow.Ingress.OfferItem` | research/gemini_vps_web_worker/discord_observability.py:134-134 | one item |
| `EventWindow.Ingress.Ingest` | research/gemini_vps_web_worker/discord_observability.py:129-150 | a batch is delivered if and only if it has at most 32 items, each of them no mapping or a recognized event with an id; one unusable event refuses it while the events before it stay recorded; a refused batch leaves the table alone if and only if it is too long or every usable event before the unusable one had been seen |

## Left out

- Authentication screens, community pages, thumbnails, the embedded PDF view, toolbars and other DOM wiring.
- HTTP transports, Drive, Supabase and Discord delivery; a webhook is taken as reachable and deliveries as successful.
- Playwright and CDP interaction; every browser action may fail instead. Chat and page identifiers of a slot.
- OCR, segmentation, polygon rasterization, erosion, connected components, seam scores and text-removal checks: arbitrary inputs. The line-height formulas that pick kernel radii: kernels are arbitrary and contain the origin.
- JSON persistence, SQLite itself, hashing; a restart that reloads slots from disk; failures of local file writes.
- A worker process that dies in the middle of a job: its marker stays in processing.
- The temporary marker file: placing a marker is one step.
- Upper and lower casing of statuses and class names: they are taken already folded.
- JSON type confusion at the gate (a boolean given as an index, a text given as a ratio): fields have their types.
- The parts of `_validate_v2_submission` outside the mask-coverage section.
- How each import statement's replacement text is built; only where it goes.
- Line endings: the rewriter reads text with carriage returns already translated, and the model starts there.
- An upsert whose chosen id belongs to another row: ids are taken as fresh or as those of the same row.
- Rounding of milliseconds and the cut to the twenty longest gaps.
- Floating-point rounding: reader offsets, ratios and confidences are exact reals, rounded only where the source calls `round`.
- ReaderGeometry.ReaderState.JumpAndSettle: the source does this in two handlers with a render between; the method strings them together, and hands the offset on as it is, where a browser clamps it to what the container can scroll.
