# VITA landing page: snap resolver and interactive widgets, modelled in Dafny

The page is a long scrolling sequence of pinned full-screen sections. Most of
its behaviour is delegated to GSAP's ScrollTrigger. Four pieces of logic are
written by hand, and this project models them:

- **Snap resolver** (`snap.dfy`, module `Snap`). After a settle delay, the App
  component collects the scroll triggers that pin, sorts them by start offset
  and divides start, end and midpoint by the maximum scroll extent. It then
  installs `snapTo(v)`. A resting fraction `v` that lies outside every range
  widened by 0.02 on both sides is left alone. Otherwise `v` moves to the
  nearest range centre, found by a strict-`<` fold seeded with the first
  range's centre.
- **Severity calculator** (`severity.dfy`, module `Severity`). It toggles
  symptoms in a selection list and computes a score from the symptom count, a
  duration bonus and a self-reported-severity bonus, capped at 100. The score
  then maps to one of four bands in the `severityLevels` table.
- **SOS demo** (`sos.dfy`, module `Sos`). The state is active flag, progress
  and emergency step. The demo is activated, advanced by an interval tick of
  +2 with step thresholds at 25, 50 and 75 that stops itself at 100, and
  reset.
- **Offline guide downloads** (`guides.dfy`, module `OfflineGuides`). This is
  a two-phase download over the list of downloaded guides and a single
  "downloading" slot.

`wrappers.dfy` holds the `Option` type that stands in for `null` and
`undefined`. `common.dfy` (module `Common`) holds `Min` (`Math.min`) and the
`NoDup` predicate, which both sections that keep lists use.

Pure source code (the filter, sort and map of triggers, `snapTo`,
`toggleSymptom`'s updater, `getSeverityInfo`) is modelled as functions with
lemmas. Components whose state changes step by step are modelled as classes:
`Severity.Calculator`, `Sos.SosDemo` and `OfflineGuides.GuideLibrary`. The
methods that mirror a handler with logic tie the new state to a pure
function of the old state and the inputs (`Toggle`, `SeverityScore`,
`TickStep`, `StartDownload`, `CompleteDownload`, …); the two drop-down setters
of the calculator state the one field they write. The lemmas about whole runs
are proved over the pure functions.

Where a natural reading of the snap rule differs from the code, the model
follows the code:

- The nearest centre is chosen among **all** ranges, not only among those
  whose window contains `v`. A fraction inside exactly one window can
  therefore move to the centre of a different range.
  `Snap.SnapMayLeaveContainingRange` works through one such case.
- On a tie, the earlier range in start order wins. After the stable sort, a
  tie in start offset keeps registration order.

## Model

| member | source | states |
|---|---|---|
| Snap.Pinned | src/App.tsx:27-28 | The filter returns only pinning triggers and is no longer than its input |
| Snap.PinnedCounts | src/App.tsx:27-28 | Each pinning trigger is kept exactly as often as it occurs, and each non-pinning one is dropped |
| Snap.PinnedEmpty | src/App.tsx:27-33 | The filtered list is empty exactly when no trigger pins |
| Snap.InsertByStartPerm | src/App.tsx:29 | Inserting one trigger adds exactly that trigger to the multiset |
| Snap.InsertByStartSorted | src/App.tsx:29 | Inserting into a list sorted by start keeps it sorted |
| Snap.SortByStart | src/App.tsx:29 | The sort's result is ordered by ascending start and is a permutation of its input |
| Snap.Normalize | src/App.tsx:35-39 | A normalised centre is the midpoint of the normalised start and end. For a positive extent and start ≤ end, start ≤ centre ≤ end. A missing end collapses the range to a point |
| Snap.BuildRanges | src/App.tsx:27-39 | No snap is installed exactly when the extent is 0 or no trigger pins; otherwise the snapshot is the normalised, start-ordered pinned ranges (their shape in BuildRangesShape) |
| Snap.BuildRangesShape | src/App.tsx:27-39 | An installed snapshot has one range per pinning trigger: the ranges are the normalisations of a reordering of the pinning triggers, each as often as it occurs; so each range is the normalisation of a pinning input trigger, and every pinning input trigger is normalised into some range. For a positive extent the ranges are in start order, and they keep start ≤ centre ≤ end when no pinning trigger ends before it starts |
| Snap.InAnyWindow | src/App.tsx:44 | The `some` test holds exactly when some range's widened window, ends included, contains `v` |
| Snap.Closest | src/App.tsx:47-50 | The reduce ends on its seed or on one of the centres, never farther from `v` than its seed; its choice law is in ClosestNoFarther and ClosestSource |
| Snap.SnapTo | src/App.tsx:43-52 | The snapped fraction is `v` itself or the centre of one of the ranges; which one is stated by SnapOutside and SnapInside |
| Snap.ClosestNoFarther | src/App.tsx:47-50 | The reduce ends no farther from `v` than its seed and than every centre |
| Snap.ClosestSource | src/App.tsx:47-50 | The reduce keeps its seed, or ends on a centre strictly closer than the seed and than every earlier centre |
| Snap.FirstNearestUnique | src/App.tsx:47-49 | Under the strict-`<` tie-break at most one range is the earliest nearest |
| Snap.SnapOutside | src/App.tsx:44-45 | Identity: a fraction outside every widened window is returned unchanged |
| Snap.SnapInside | src/App.tsx:44-51 | A fraction inside some window moves to the centre of the earliest range among those whose centre is nearest, taken over all ranges |
| Snap.SnapNearestCenter | src/App.tsx:47-51 | Inside some window, the result is a centre of the list and no centre is closer to `v` |
| Snap.SnapAtBoundaries | src/App.tsx:44 | Both widened boundaries count as inside: for any range whose widened window is non-empty, resting exactly on `start - 0.02` or `end + 0.02` snaps to a centre |
| Snap.SnapIdempotent | src/App.tsx:38-51 | When every centre lies within its range, snapping twice gives the same result as snapping once |
| Snap.InstalledSnapIdempotent | src/App.tsx:27-51 | The installed snap is idempotent for a positive extent when no pinning trigger ends before it starts |
| Snap.SnapTwoRanges | src/App.tsx:43-52 | Worked case with ranges [0.1,0.3] and [0.4,0.6]: 0.21 snaps to 0.20, 0.35 stays at 0.35, 0.39 snaps to 0.50 |
| Snap.SnapTieGoesToEarlier | src/App.tsx:47-50 | Tie-break: when range `i` has a nearest centre and a later range `j` is equally near, the snap picks the centre of a range no later than `i`, never `j` for its own sake |
| Snap.SnapTieExample | src/App.tsx:47-50 | Worked case: with centres 0.20 and 0.40, the fraction 0.30 snaps to the earlier 0.20 |
| Snap.SnapMayLeaveContainingRange | src/App.tsx:44-50 | Worked case: with ranges [0, 0.40] and [0.45, 0.45], the fraction 0.41 lies only in the first window yet snaps to the second range's centre 0.45 |
| Severity.RemoveAll | src/sections/SymptomAnalysisSection.tsx:40 | The filter keeps exactly the entries that differ from the symptom |
| Severity.Toggle | src/sections/SymptomAnalysisSection.tsx:38-42 | After a toggle the symptom is selected exactly when it was not before, and every other symptom keeps its selection; ToggleTwice, ToggleNoDup and RemoveAllCounts give the rest |
| Severity.RemoveAllConcat | src/sections/SymptomAnalysisSection.tsx:40 | Removal distributes over concatenation, so the remaining entries keep their order |
| Severity.RemoveAllAbsent | src/sections/SymptomAnalysisSection.tsx:40 | Removing an absent symptom leaves the list unchanged |
| Severity.RemoveAllCounts | src/sections/SymptomAnalysisSection.tsx:40 | Removal drops every occurrence of the symptom and keeps each other entry as often as it occurred |
| Severity.ToggleTwice | src/sections/SymptomAnalysisSection.tsx:38-42 | Toggling an unselected symptom twice restores the list |
| Severity.RemoveAllNoDup | src/sections/SymptomAnalysisSection.tsx:40 | Removal keeps a duplicate-free list duplicate-free |
| Severity.SeverityScore | src/sections/SymptomAnalysisSection.tsx:50-63 | The closed-form score min(8n + duration bonus + severity bonus, 100) lies in [0,100] and is at least 8 once a symptom is selected; ComputeScore, ScoreMonotone and ScoreSaturates give the rest |
| Severity.ToggleNoDup | src/sections/SymptomAnalysisSection.tsx:38-42 | A duplicate-free selection stays duplicate-free under toggling |
| Severity.ComputeScore | src/sections/SymptomAnalysisSection.tsx:46-63 | The step-by-step local score equals min(8n + duration bonus + severity bonus, 100). It lies in [0,100] and is at least 8 when a symptom is selected |
| Severity.ScoreMonotone | src/sections/SymptomAnalysisSection.tsx:50-63 | The score never decreases with more symptoms, a longer duration or a worse self-reported severity |
| Severity.ScoreSaturates | src/sections/SymptomAnalysisSection.tsx:50-63 | Thirteen symptoms, or four with "weeks" and "severe", reach the cap of 100 |
| Severity.BandIndex | src/sections/SymptomAnalysisSection.tsx:67-72 | Every score maps to a valid index of the four-row table |
| Severity.SeverityInfo | src/sections/SymptomAnalysisSection.tsx:67-72 | The level returned is a row of `severityLevels`, and for every score in 0..100 its `range` text contains the score |
| Severity.BandMatchesTable | src/sections/SymptomAnalysisSection.tsx:67-72 | For every score in 0..100, the chosen band is the row whose `range` text ("0-30", "31-60", …) contains the score |
| Severity.BoundsTable | src/sections/SymptomAnalysisSection.tsx:12-17 | Reading the four `range` texts gives the bounds 0–30, 31–60, 61–80 and 81–100 |
| Severity.BandMonotone | src/sections/SymptomAnalysisSection.tsx:67-72 | The band index is non-decreasing in the score |
| Severity.Calculator.constructor | src/sections/SymptomAnalysisSection.tsx:32-35 | The state starts with no symptoms, no answers and no score |
| Severity.Calculator.ToggleSymptom | src/sections/SymptomAnalysisSection.tsx:37-44 | The selection becomes the toggled list, the symptom's membership flips and the others keep theirs. Duplicate freedom is kept, the score is reset to null, and the answers are unchanged |
| Severity.Calculator.SetDuration | src/sections/SymptomAnalysisSection.tsx:171 | The duration answer is replaced |
| Severity.Calculator.SetSeverity | src/sections/SymptomAnalysisSection.tsx:182 | The self-reported severity answer is replaced |
| Severity.Calculator.CalculateSeverity | src/sections/SymptomAnalysisSection.tsx:46-65 | The stored score is the score of the current answers and lies in [0,100] |
| Sos.StageOf | src/sections/HeroSection.tsx:44-46 | The threshold step is a valid index of `emergencySteps` |
| Sos.ActivateStep | src/sections/HeroSection.tsx:35-38 | From any state, activation gives a well-formed run at its start: active, progress 0, interval running |
| Sos.TickStep | src/sections/HeroSection.tsx:41-52 | A tick of a running, well-formed demo keeps it well formed; TickLaw and TickThresholds state the new progress and step |
| Sos.ResetStep | src/sections/HeroSection.tsx:56-60 | Reset always gives an inactive demo at progress 0 and step 0, and once the interval has stopped this is exactly the initial state |
| Sos.Ticks | src/sections/HeroSection.tsx:41-53 | Any number of interval firings keeps the demo active or inactive as it was, and the progress never goes back and never passes 100; TicksLaw gives its exact value |
| Sos.InitialWellFormed | src/sections/HeroSection.tsx:23-38 | The initial state and the freshly activated state are well formed |
| Sos.TickLaw | src/sections/HeroSection.tsx:42-51 | A tick sets progress to min(progress + 2, 100) and keeps the state well formed: even, at most 100, step matching the thresholds. It never lowers the step and stops the interval exactly at 100 |
| Sos.TickThresholds | src/sections/HeroSection.tsx:44-46 | After a tick the step is 3, 2 or 1 when the new progress reached 75, 50 or 25; otherwise it is unchanged |
| Sos.TicksLaw | src/sections/HeroSection.tsx:41-53 | After k more ticks of a run, progress is min(p + 2k, 100), the step follows it, and the state stays well formed |
| Sos.RunCompletes | src/sections/HeroSection.tsx:35-53 | After activation, k ticks give progress min(2k, 100). The interval still runs exactly while k < 50, and from 50 ticks on the last step is shown |
| Sos.ResetLaw | src/sections/HeroSection.tsx:56-60 | Reset from a finished run restores (inactive, 0, 0) |
| Sos.SosDemo.constructor | src/sections/HeroSection.tsx:23-25 | The demo starts inactive at progress 0 and step 0 |
| Sos.SosDemo.Activate | src/sections/HeroSection.tsx:35-41 | Activation sets active, progress 0 and step 0, and starts the interval |
| Sos.SosDemo.Tick | src/sections/HeroSection.tsx:42-52 | One interval firing: progress becomes min(old + 2, 100), the step never decreases, and the interval stops exactly at 100 |
| Sos.SosDemo.Reset | src/sections/HeroSection.tsx:56-60 | Reset restores the initial state |
| Sos.SosDemo.CurrentStepText | src/sections/HeroSection.tsx:217 | `emergencySteps[emergencyStep]` is always a valid entry |
| Sos.SosDemo.HighlightedPrefix | src/sections/HeroSection.tsx:195 | Highlighted items form a prefix. The first item is highlighted while active, all items once progress is 100, and none while inactive |
| OfflineGuides.StartLaw | src/sections/OfflineSection.tsx:38-41 | Requesting a downloaded guide changes nothing. Any other request overwrites the slot with that guide and schedules its completion; the list is unchanged |
| OfflineGuides.StartDownload | src/sections/OfflineSection.tsx:38-41 | A start never changes the downloaded list, and afterwards the guide's button is disabled |
| OfflineGuides.CompleteLaw | src/sections/OfflineSection.tsx:42-45 | Completion appends exactly the scheduled guide after the unchanged earlier entries and empties the slot whatever it held |
| OfflineGuides.CompleteDownload | src/sections/OfflineSection.tsx:42-45 | After a timeout the guide scheduled first is downloaded, one fewer timeout is pending, and no download is marked as in flight |
| OfflineGuides.CompleteConserves | src/sections/OfflineSection.tsx:42-45 | A timeout moves one guide from the pending timeouts to the downloaded list; no guide is lost or made up |
| OfflineGuides.Step | src/sections/OfflineSection.tsx:38-46 | One click or timeout never removes or reorders a downloaded guide |
| OfflineGuides.RunKeepsDownloaded | src/sections/OfflineSection.tsx:38-46 | No sequence of clicks and timeouts removes or reorders a downloaded guide, so the "N of 6" count never decreases |
| OfflineGuides.DownloadedStaysDisabled | src/sections/OfflineSection.tsx:140-147 | Once a guide is downloaded its button stays disabled whatever happens next |
| OfflineGuides.PendingButtonEnabled | src/sections/OfflineSection.tsx:39-44 | As written, a guide can still be pending while its button is enabled: after two starts and the first timeout, "Burns & Scalds" is pending and clickable |
| OfflineGuides.DuplicateDownload | src/sections/OfflineSection.tsx:38-46 | A click sequence on enabled buttons downloads "Burns & Scalds" twice; with a further "Fractures" download the page shows 7 of 6 |
| OfflineGuides.InitialFixedInv | src/sections/OfflineSection.tsx:35-36 | The initial three guides with an empty slot satisfy the corrected invariant |
| OfflineGuides.StepFixedInv | src/sections/OfflineSection.tsx:38-46 | With the corrected guard, each click or timeout keeps the invariant: at most one pending download, named by the slot and not yet downloaded, and no duplicates |
| OfflineGuides.RunFixedKeepsInv | src/sections/OfflineSection.tsx:38-46 | With the corrected guard, every run keeps the invariant of StepFixedInv |
| OfflineGuides.RunFixedPendingDisabled | src/sections/OfflineSection.tsx:140-147 | With the corrected guard, on every run from the initial state a guide whose download is in flight has its button disabled |
| OfflineGuides.RunFixedNoDuplicates | src/sections/OfflineSection.tsx:38-46 | With the corrected guard, no run downloads a guide twice, and the count never exceeds the six guides on offer |
| OfflineGuides.BoundedByCatalogue | src/sections/OfflineSection.tsx:176 | A duplicate-free list of catalogue labels is no longer than the catalogue |
| OfflineGuides.GuideLibrary.constructor | src/sections/OfflineSection.tsx:35-36 | Initially "Snake Bites", "Malaria" and "Bleeding Control" are downloaded and the slot is empty |
| OfflineGuides.GuideLibrary.DownloadGuide | src/sections/OfflineSection.tsx:38-41 | A downloaded guide leaves the state unchanged. Otherwise the slot holds the guide, its completion is scheduled, and the list is unchanged |
| OfflineGuides.GuideLibrary.CompleteTimeout | src/sections/OfflineSection.tsx:42-45 | The oldest scheduled guide is appended and the slot is cleared unconditionally |

## Findings

| source | as written | input that shows it | evidently intended | confidence | as-written member | corrected member |
|---|---|---|---|---|---|---|
| src/sections/OfflineSection.tsx:39-44 | The start guard checks only `downloadedGuides`, and each timeout clears the single `downloading` slot whatever it holds. A second download that is still pending therefore loses its "in flight" mark, and its button is enabled again | Click "Fever Management", then "Burns & Scalds". The first timeout fires. Click "Burns & Scalds" again, then let both of its timeouts fire: the page shows 6 of 6 with "Burns & Scalds" listed twice. Click "Fractures" and let its timeout fire: the page shows 7 of 6 | Each guide is downloaded at most once, and the count never exceeds 6. The single slot suggests one download at a time | not executed; high | OfflineGuides.DuplicateDownload | OfflineGuides.RunFixedNoDuplicates |

The corrected start (`StartDownloadFixed`) also refuses to start while the slot
is occupied. With that change the unconditional clearing at completion is
correct. The class `OfflineGuides.GuideLibrary` models the component as
written.

## Left out

- GSAP timelines and ScrollTrigger configuration in every section (`fromTo` tweens, `pin`, `scrub`, `end: '+=140%'`, easing). Interpolation and pinning run inside the library. The sections that contain only this are not modelled.
- The snap animation's duration, delay and easing (src/App.tsx:53-55) and the trigger teardown (src/App.tsx:60-63). These are library calls.
- Timers are not modelled: the 500 ms settle delay, the 100 ms SOS interval and the 1500 ms download timeout. Each firing is a method call or a `Step`/`TickStep` application.
- Floating point: offsets and fractions are `real`, and the divisions and the 0.02 slack are exact. `!maxScroll` is also true for NaN, which `real` cannot represent.
- Snap.SortByStart: proved sorted by start and a permutation of its input. Stability is not proved, although the model inserts stably, as the JavaScript sort does.
- Sos.SosDemo.Activate: requires an inactive demo, because the "Try SOS Demo" button is only rendered then (src/sections/HeroSection.tsx:202-203). A second overlapping interval is not modelled.
- Sos.SosDemo.Reset: requires a finished run, because "Reset Demo" is only rendered at progress 100 (src/sections/HeroSection.tsx:219-220), when the interval has already cleared itself.
- Severity.Calculator.CalculateSeverity: also callable with no symptom selected. The button is disabled in that case (src/sections/SymptomAnalysisSection.tsx:194); `ComputeScore` states that a selected symptom gives a score of at least 8.
- OfflineGuides.GuideLibrary.DownloadGuide: the guard reads the current list, whereas the source reads the list captured at the last render. This is the same once the page has re-rendered after each update.
- Navigation (a scroll listener and `scrollIntoView`), the single-slot setters of other sections (`setActiveTab`, `setSelectedLang`, `setSelectedFacility`, `shareLocation`, `playSample`), JSX rendering, styling and icons are not modelled. The colour fields of `severityLevels` are kept only as data.
