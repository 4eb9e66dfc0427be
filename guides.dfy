/**
 * The downloadable emergency guides of the offline section
 * (src/sections/OfflineSection.tsx). `downloadGuide(guide)` returns at once
 * for a guide already in `downloadedGuides`; otherwise it puts the guide in
 * the single `downloading` slot and schedules a 1500 ms timeout that appends
 * the guide to `downloadedGuides` and empties the slot.
 *
 * Time is not modelled: every scheduled timeout is kept, oldest first, in
 * `pending`, and each firing is one call of `CompleteTimeout`. All timeouts
 * have the same delay, so they fire in the order they were scheduled.
 */
module OfflineGuides {
  import opened Wrappers
  import opened Common

  /** Labels of `africanEmergencyGuides`, one button each. */
  const GuideLabels: seq<string> := [
    "Snake Bites", "Malaria", "Fever Management", "Bleeding Control", "Burns & Scalds", "Fractures"
  ]

  /** `downloadedGuides`, `downloading`, and the guides whose completion
      timeouts are still pending. */
  datatype Shelf = Shelf(downloaded: seq<string>, downloading: Option<string>, pending: seq<string>)

  /** The two `useState` initial values; no timeout scheduled. */
  const InitialShelf := Shelf(["Snake Bites", "Malaria", "Bleeding Control"], None, [])

  /** `downloadGuide(guide)`: the guard reads only the downloaded list. A
      start never changes that list, and afterwards the guide's button is
      disabled. */
  function StartDownload(sh: Shelf, guide: string): (r: Shelf)
    ensures r.downloaded == sh.downloaded
    ensures ButtonDisabled(r, guide)
  {
    if guide in sh.downloaded then sh
    else Shelf(sh.downloaded, Some(guide), sh.pending + [guide])
  }

  /** The oldest pending timeout fires: its guide is appended and the slot is
      emptied, whichever guide it holds: the guide scheduled first is now
      downloaded, one fewer timeout is pending, and no download is marked as
      in flight. */
  function CompleteDownload(sh: Shelf): (r: Shelf)
    requires sh.pending != []
    ensures sh.pending[0] in r.downloaded
    ensures |r.pending| == |sh.pending| - 1 && r.downloading == None
  {
    Shelf(sh.downloaded + [sh.pending[0]], None, sh.pending[1..])
  }

  /** `disabled={isDownloaded || isDownloading}` for the guide's button. */
  predicate ButtonDisabled(sh: Shelf, guide: string) {
    guide in sh.downloaded || sh.downloading == Some(guide)
  }

  /** What can happen on the page: a click on a guide's button, or the oldest
      pending timeout firing. */
  datatype Event = Click(guide: string) | Timeout

  /** A click on a disabled button does nothing; a timeout fires only when
      one is pending. No step removes or reorders a downloaded guide. */
  function Step(sh: Shelf, e: Event): (r: Shelf)
    ensures |sh.downloaded| <= |r.downloaded| && r.downloaded[..|sh.downloaded|] == sh.downloaded
  {
    match e
    case Click(g) => if ButtonDisabled(sh, g) then sh else StartDownload(sh, g)
    case Timeout => if sh.pending == [] then sh else CompleteDownload(sh)
  }

  function Run(sh: Shelf, events: seq<Event>): Shelf
    decreases |events|
  {
    if events == [] then sh else Run(Step(sh, events[0]), events[1..])
  }

  // ---------------------------------------------------------------------------
  // The two phases, as written
  // ---------------------------------------------------------------------------

  /** A request for a downloaded guide changes nothing; any other request
      overwrites the slot with that guide and schedules its completion,
      leaving the downloaded list alone. */
  lemma StartLaw(sh: Shelf, guide: string)
    ensures guide in sh.downloaded ==> StartDownload(sh, guide) == sh
    ensures guide !in sh.downloaded ==>
      StartDownload(sh, guide).downloading == Some(guide) &&
      StartDownload(sh, guide).downloaded == sh.downloaded &&
      StartDownload(sh, guide).pending == sh.pending + [guide]
  {
  }

  /** Completion appends exactly the scheduled guide behind the earlier
      entries and empties the slot even if another guide was started since. */
  lemma CompleteLaw(sh: Shelf)
    requires sh.pending != []
    ensures var after := CompleteDownload(sh);
      |after.downloaded| == |sh.downloaded| + 1 &&
      after.downloaded[..|sh.downloaded|] == sh.downloaded &&
      after.downloaded[|sh.downloaded|] == sh.pending[0] &&
      after.downloading == None
  {
  }

  /** Completion moves one guide from the pending timeouts to the downloaded
      list: no guide is lost or made up. */
  lemma CompleteConserves(sh: Shelf)
    requires sh.pending != []
    ensures var r := CompleteDownload(sh);
      multiset(r.downloaded) + multiset(r.pending) == multiset(sh.downloaded) + multiset(sh.pending)
  {
    assert sh.pending == [sh.pending[0]] + sh.pending[1..];
  }

  /** No sequence of clicks and timeouts removes or reorders a downloaded
      guide, so the count shown as "N of 6" never decreases. */
  lemma {:induction false} RunKeepsDownloaded(sh: Shelf, events: seq<Event>)
    ensures var after := Run(sh, events);
      |sh.downloaded| <= |after.downloaded| &&
      after.downloaded[..|sh.downloaded|] == sh.downloaded
    decreases |events|
  {
    if events != [] {
      var next := Step(sh, events[0]);
      RunKeepsDownloaded(next, events[1..]);
      var after := Run(sh, events);
      assert after.downloaded[..|sh.downloaded|] == after.downloaded[..|next.downloaded|][..|sh.downloaded|];
    }
  }

  /** A downloaded guide's button stays disabled whatever happens next. */
  lemma DownloadedStaysDisabled(sh: Shelf, events: seq<Event>, g: string)
    requires g in sh.downloaded
    ensures ButtonDisabled(Run(sh, events), g)
  {
    RunKeepsDownloaded(sh, events);
    var after := Run(sh, events).downloaded;
    var i :| 0 <= i < |sh.downloaded| && sh.downloaded[i] == g;
    assert after[..|sh.downloaded|][i] == g;
  }

  /** As written, a guide can be in flight while its button is enabled:
      after two starts and the first timeout, "Burns & Scalds" is still
      pending but the slot that marked it is empty. */
  lemma PendingButtonEnabled()
    ensures var sh := Run(InitialShelf, [Click("Fever Management"), Click("Burns & Scalds"), Timeout]);
      "Burns & Scalds" in sh.pending && !ButtonDisabled(sh, "Burns & Scalds")
  {
  }

  /** The counterexample: start two downloads, let the first timeout fire
      (it empties the slot the second one was in), click the second guide
      again, let both of its timeouts fire, then download "Fractures". Every
      click is on an enabled button, and the list ends with "Burns & Scalds"
      twice: "7 of 6". */
  lemma DuplicateDownload()
    ensures var s1 := Step(InitialShelf, Click("Fever Management"));
      var s2 := Step(s1, Click("Burns & Scalds"));
      var s3 := Step(s2, Timeout);
      var s4 := Step(s3, Click("Burns & Scalds"));
      var s5 := Step(Step(s4, Timeout), Timeout);
      var s6 := Step(Step(s5, Click("Fractures")), Timeout);
      !ButtonDisabled(InitialShelf, "Fever Management") &&
      !ButtonDisabled(s1, "Burns & Scalds") &&
      !ButtonDisabled(s3, "Burns & Scalds") &&
      !ButtonDisabled(s5, "Fractures") &&
      s6.downloaded == ["Snake Bites", "Malaria", "Bleeding Control", "Fever Management",
                        "Burns & Scalds", "Burns & Scalds", "Fractures"] &&
      !NoDup(s6.downloaded) && |s6.downloaded| > |GuideLabels|
  {
    DuplicateFirstStarts();
    DuplicateSecondStart();
    DuplicateLastStart();
    var d := DuplicateEnd.downloaded;
    assert d[4] == d[5];
  }

  // The shelves the counterexample passes through.
  const DuplicateAfterFirst := Shelf(["Snake Bites", "Malaria", "Bleeding Control"],
    Some("Fever Management"), ["Fever Management"])
  const DuplicateAfterTwo := Shelf(["Snake Bites", "Malaria", "Bleeding Control"],
    Some("Burns & Scalds"), ["Fever Management", "Burns & Scalds"])
  const DuplicateSlotCleared := Shelf(["Snake Bites", "Malaria", "Bleeding Control", "Fever Management"],
    None, ["Burns & Scalds"])
  const DuplicateRestarted := Shelf(["Snake Bites", "Malaria", "Bleeding Control", "Fever Management"],
    Some("Burns & Scalds"), ["Burns & Scalds", "Burns & Scalds"])
  const DuplicateBothDone := Shelf(["Snake Bites", "Malaria", "Bleeding Control", "Fever Management",
    "Burns & Scalds", "Burns & Scalds"], None, [])
  const DuplicateEnd := Shelf(["Snake Bites", "Malaria", "Bleeding Control", "Fever Management",
    "Burns & Scalds", "Burns & Scalds", "Fractures"], None, [])

  lemma DuplicateFirstStarts()
    ensures !ButtonDisabled(InitialShelf, "Fever Management")
    ensures Step(InitialShelf, Click("Fever Management")) == DuplicateAfterFirst
    ensures !ButtonDisabled(DuplicateAfterFirst, "Burns & Scalds")
    ensures Step(DuplicateAfterFirst, Click("Burns & Scalds")) == DuplicateAfterTwo
    ensures Step(DuplicateAfterTwo, Timeout) == DuplicateSlotCleared
  {
    ClickEnabled(InitialShelf, "Fever Management");
    ClickEnabled(DuplicateAfterFirst, "Burns & Scalds");
    TimeoutFires(DuplicateAfterTwo);
  }

  lemma DuplicateSecondStart()
    ensures !ButtonDisabled(DuplicateSlotCleared, "Burns & Scalds")
    ensures Step(DuplicateSlotCleared, Click("Burns & Scalds")) == DuplicateRestarted
    ensures Step(Step(DuplicateRestarted, Timeout), Timeout) == DuplicateBothDone
  {
    ClickEnabled(DuplicateSlotCleared, "Burns & Scalds");
    TimeoutFires(DuplicateRestarted);
    TimeoutFires(Step(DuplicateRestarted, Timeout));
  }

  lemma DuplicateLastStart()
    ensures !ButtonDisabled(DuplicateBothDone, "Fractures")
    ensures Step(Step(DuplicateBothDone, Click("Fractures")), Timeout) == DuplicateEnd
  {
    ClickEnabled(DuplicateBothDone, "Fractures");
    TimeoutFires(Step(DuplicateBothDone, Click("Fractures")));
  }

  lemma ClickEnabled(sh: Shelf, g: string)
    requires !ButtonDisabled(sh, g)
    ensures Step(sh, Click(g)) == Shelf(sh.downloaded, Some(g), sh.pending + [g])
  {
  }

  lemma TimeoutFires(sh: Shelf)
    requires sh.pending != []
    ensures Step(sh, Timeout) == Shelf(sh.downloaded + [sh.pending[0]], None, sh.pending[1..])
  {
  }

  // ---------------------------------------------------------------------------
  // Corrected: one download at a time
  // ---------------------------------------------------------------------------

  /** `downloadGuide` with the guard extended to the slot: nothing starts
      while a download is in flight. */
  function StartDownloadFixed(sh: Shelf, guide: string): Shelf {
    if guide in sh.downloaded || sh.downloading.Some? then sh
    else Shelf(sh.downloaded, Some(guide), sh.pending + [guide])
  }

  function StepFixed(sh: Shelf, e: Event): Shelf {
    match e
    case Click(g) => if ButtonDisabled(sh, g) then sh else StartDownloadFixed(sh, g)
    case Timeout => if sh.pending == [] then sh else CompleteDownload(sh)
  }

  function RunFixed(sh: Shelf, events: seq<Event>): Shelf
    decreases |events|
  {
    if events == [] then sh else RunFixed(StepFixed(sh, events[0]), events[1..])
  }

  /** At most one timeout is pending, the slot names it, its guide is not yet
      downloaded, and the downloaded list has no duplicates. */
  predicate FixedInv(sh: Shelf) {
    NoDup(sh.downloaded) && |sh.pending| <= 1 &&
    (sh.pending == [] <==> sh.downloading == None) &&
    (sh.pending != [] ==> sh.downloading == Some(sh.pending[0]) && sh.pending[0] !in sh.downloaded)
  }

  /** Guides named on the page: every downloaded or pending guide is a label. */
  predicate FromCatalogue(sh: Shelf) {
    (forall g :: g in sh.downloaded ==> g in GuideLabels) &&
    (forall g :: g in sh.pending ==> g in GuideLabels)
  }

  predicate ClicksFromCatalogue(events: seq<Event>) {
    forall i :: 0 <= i < |events| && events[i].Click? ==> events[i].guide in GuideLabels
  }

  lemma InitialFixedInv()
    ensures FixedInv(InitialShelf) && FromCatalogue(InitialShelf)
  {
  }

  lemma StepFixedInv(sh: Shelf, e: Event)
    requires FixedInv(sh)
    ensures FixedInv(StepFixed(sh, e))
    ensures FromCatalogue(sh) && (e.Click? ==> e.guide in GuideLabels) ==> FromCatalogue(StepFixed(sh, e))
  {
    if e.Timeout? && sh.pending != [] {
      var after := CompleteDownload(sh);
      forall i, j | 0 <= i < j < |after.downloaded| ensures after.downloaded[i] != after.downloaded[j] {
        if j == |sh.downloaded| {
          assert after.downloaded[i] == sh.downloaded[i];
        }
      }
    }
  }

  lemma {:induction false} RunFixedKeepsInv(sh: Shelf, events: seq<Event>)
    requires FixedInv(sh)
    ensures FixedInv(RunFixed(sh, events))
    decreases |events|
  {
    if events != [] {
      StepFixedInv(sh, events[0]);
      RunFixedKeepsInv(StepFixed(sh, events[0]), events[1..]);
    }
  }

  /** With the corrected guard, on every run from the page's initial state a
      guide whose download is in flight has its button disabled. */
  lemma RunFixedPendingDisabled(events: seq<Event>, g: string)
    ensures var sh := RunFixed(InitialShelf, events);
      g in sh.pending ==> ButtonDisabled(sh, g)
  {
    InitialFixedInv();
    RunFixedKeepsInv(InitialShelf, events);
  }

  /** With the corrected guard no run ever downloads a guide twice, and as
      long as only the page's own buttons are clicked the count never
      exceeds the six guides on offer. */
  lemma {:induction false} RunFixedNoDuplicates(sh: Shelf, events: seq<Event>)
    requires FixedInv(sh) && FromCatalogue(sh) && ClicksFromCatalogue(events)
    ensures var after := RunFixed(sh, events);
      FixedInv(after) && NoDup(after.downloaded) && |after.downloaded| <= |GuideLabels|
    decreases |events|
  {
    if events == [] {
      BoundedByCatalogue(sh.downloaded, GuideLabels);
    } else {
      StepFixedInv(sh, events[0]);
      assert ClicksFromCatalogue(events[1..]) by {
        forall i | 0 <= i < |events[1..]| && events[1..][i].Click?
          ensures events[1..][i].guide in GuideLabels
        {
          assert events[1..][i] == events[i + 1];
        }
      }
      RunFixedNoDuplicates(StepFixed(sh, events[0]), events[1..]);
    }
  }

  /** A duplicate-free list drawn from `labels` is no longer than `labels`. */
  lemma {:induction false} BoundedByCatalogue(s: seq<string>, labels: seq<string>)
    requires NoDup(s) && forall g :: g in s ==> g in labels
    ensures |s| <= |labels|
    decreases |s|
  {
    if s != [] {
      var x := s[0];
      assert x in labels;
      var i :| 0 <= i < |labels| && labels[i] == x;
      var rest := labels[..i] + labels[i + 1..];
      forall g | g in s[1..] ensures g in rest {
        var k :| 0 <= k < |s[1..]| && s[1..][k] == g;
        assert g == s[k + 1] && g != x;
        assert g in labels;
        var m :| 0 <= m < |labels| && labels[m] == g;
        if m < i { assert rest[m] == g; } else { assert rest[m - 1] == g; }
      }
      assert NoDup(s[1..]) by {
        forall a, b | 0 <= a < b < |s[1..]| ensures s[1..][a] != s[1..][b] {
          assert s[1..][a] == s[a + 1] && s[1..][b] == s[b + 1];
        }
      }
      BoundedByCatalogue(s[1..], rest);
    }
  }

  // ---------------------------------------------------------------------------
  // The component's state, as written
  // ---------------------------------------------------------------------------

  class GuideLibrary {
    var downloaded: seq<string>
    var downloading: Option<string>
    var pending: seq<string>

    function State(): Shelf
      reads this
    {
      Shelf(downloaded, downloading, pending)
    }

    constructor ()
      ensures State() == InitialShelf
    {
      downloaded := ["Snake Bites", "Malaria", "Bleeding Control"];
      downloading := None;
      pending := [];
    }

    /** `downloadGuide(guide)`: the start phase. */
    method DownloadGuide(guide: string)
      modifies this
      ensures State() == StartDownload(old(State()), guide)
      ensures guide in old(downloaded) ==> State() == old(State())
      ensures guide !in old(downloaded) ==>
        downloading == Some(guide) && downloaded == old(downloaded) && pending == old(pending) + [guide]
    {
      if guide in downloaded {
        return;
      }
      downloading := Some(guide);
      pending := pending + [guide];
    }

    /** The oldest scheduled timeout fires: the completion phase. */
    method CompleteTimeout()
      requires pending != []
      modifies this
      ensures State() == CompleteDownload(old(State()))
      ensures downloaded == old(downloaded) + [old(pending)[0]]
      ensures downloading == None && pending == old(pending)[1..]
    {
      var guide := pending[0];
      pending := pending[1..];
      downloaded := downloaded + [guide];
      downloading := None;
    }
  }
}
