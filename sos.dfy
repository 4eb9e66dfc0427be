/**
 * The SOS demo of the hero section (src/sections/HeroSection.tsx): pressing
 * "Try SOS Demo" activates the demo and starts a 100 ms interval whose
 * callback advances the progress by 2 and moves the emergency step on at the
 * 25/50/75 thresholds, clearing itself at 100; "Reset Demo" restores the
 * initial state.
 *
 * The timer is an external driver: each firing of the interval is one call
 * of `Tick`. Besides the three React state fields, the model keeps
 * `ticking`, whether the interval is still scheduled.
 */
module Sos {
  import opened Common

  /** Texts of `emergencySteps`, indexed by `emergencyStep`. */
  const EmergencySteps: seq<string> := [
    "Capturing GPS location...",
    "Alerting nearest clinic...",
    "Notifying emergency contacts...",
    "Activating guidance mode..."
  ]

  /** `(sosActive, sosProgress, emergencyStep)` and whether the interval runs. */
  datatype SosState = SosState(active: bool, progress: int, step: int, ticking: bool)

  /** The three `useState` initial values; no interval yet. */
  const Initial := SosState(false, 0, 0, false)

  /** The step the thresholds assign to a progress value. */
  function StageOf(progress: int): (k: int)
    ensures 0 <= k < |EmergencySteps|
  {
    if progress >= 75 then 3
    else if progress >= 50 then 2
    else if progress >= 25 then 1
    else 0
  }

  /** The states the demo can be in: progress is even and within 0..100,
      the step is the one its thresholds give, the interval runs exactly
      while an active demo has not reached 100, and an inactive demo is at 0. */
  predicate WellFormed(s: SosState) {
    0 <= s.progress <= 100 && s.progress % 2 == 0 &&
    s.step == StageOf(s.progress) &&
    (s.ticking <==> s.active && s.progress < 100) &&
    (!s.active ==> s.progress == 0)
  }

  /** `activateSOS`: a well-formed run at its start, from whatever state. */
  function ActivateStep(s: SosState): (t: SosState)
    ensures WellFormed(t) && t.active && t.ticking && t.progress == 0
  {
    SosState(true, 0, 0, true)
  }

  /** One firing of the interval callback. The thresholds are tested in turn,
      so the last one passed decides the step; at 100 the interval clears
      itself and the progress is stored as exactly 100. A tick of a running,
      well-formed demo keeps it well formed. */
  function TickStep(s: SosState): (t: SosState)
    ensures WellFormed(s) && s.ticking ==> WellFormed(t)
  {
    var newProgress := s.progress + 2;
    var step1 := if newProgress >= 25 then 1 else s.step;
    var step2 := if newProgress >= 50 then 2 else step1;
    var step3 := if newProgress >= 75 then 3 else step2;
    if newProgress >= 100 then SosState(s.active, 100, step3, false)
    else SosState(s.active, newProgress, step3, s.ticking)
  }

  /** `resetSOS`; once the interval has stopped, this is the initial state. */
  function ResetStep(s: SosState): (t: SosState)
    ensures !s.ticking ==> t == Initial
    ensures !t.active && t.progress == 0 && t.step == 0
  {
    SosState(false, 0, 0, s.ticking)
  }

  /** Fires the interval up to `k` times, stopping once it has cleared
      itself. The demo stays active or inactive, and the progress never goes
      back and never passes 100. */
  function Ticks(s: SosState, k: nat): (t: SosState)
    ensures t.active == s.active
    ensures s.progress <= 100 ==> s.progress <= t.progress <= 100
    decreases k
  {
    if k == 0 || !s.ticking then s else Ticks(TickStep(s), k - 1)
  }

  lemma InitialWellFormed()
    ensures WellFormed(Initial) && WellFormed(ActivateStep(Initial))
  {
  }

  /** A tick adds 2 to the progress, capped at exactly 100, keeps the state
      well formed, never lowers the step and stops the interval exactly when
      100 is reached. */
  lemma TickLaw(s: SosState)
    requires WellFormed(s) && s.ticking
    ensures var t := TickStep(s);
      WellFormed(t) && t.active &&
      t.progress == Min(s.progress + 2, 100) &&
      s.step <= t.step &&
      (t.ticking <==> t.progress < 100)
  {
  }

  /** The step after a tick is 3, 2 or 1 when the new progress passed 75, 50
      or 25, and is otherwise the step before the tick. */
  lemma TickThresholds(s: SosState)
    ensures var p, t := s.progress + 2, TickStep(s);
      t.step == (if p >= 75 then 3 else if p >= 50 then 2 else if p >= 25 then 1 else s.step)
  {
  }

  /** Within a run the progress after `k` more ticks is the progress now plus
      `2k`, capped at 100, and the step follows it. */
  lemma {:induction false} TicksLaw(s: SosState, k: nat)
    requires WellFormed(s) && s.active
    ensures var t := Ticks(s, k);
      WellFormed(t) && t.active &&
      t.progress == Min(s.progress + 2 * k, 100) &&
      t.step == StageOf(t.progress)
    decreases k
  {
    if k > 0 && s.ticking {
      TickLaw(s);
      TicksLaw(TickStep(s), k - 1);
    }
  }

  /** A run started by `activateSOS` reaches exactly 100 after 50 ticks, with
      the last step shown, and the interval is still running after any fewer. */
  lemma RunCompletes(s: SosState, k: nat)
    ensures var t := Ticks(ActivateStep(s), k);
      t.progress == Min(2 * k, 100) &&
      (t.ticking <==> k < 50) &&
      (k >= 50 ==> t.step == 3)
  {
    InitialWellFormed();
    TicksLaw(ActivateStep(s), k);
  }

  /** Reset returns the demo to its initial state. */
  lemma ResetLaw(s: SosState)
    requires WellFormed(s) && s.active && s.progress >= 100
    ensures ResetStep(s) == Initial
  {
  }

  /** The object behind the hero section's demo widget. */
  class SosDemo {
    var active: bool
    var progress: int
    var step: int
    var ticking: bool

    function State(): SosState
      reads this
    {
      SosState(active, progress, step, ticking)
    }

    predicate Valid()
      reads this
    {
      WellFormed(State())
    }

    constructor ()
      ensures State() == Initial && Valid()
    {
      active, progress, step, ticking := false, 0, 0, false;
    }

    /** `activateSOS`; the button is only rendered while the demo is inactive. */
    method Activate()
      requires Valid() && !active
      modifies this
      ensures State() == ActivateStep(old(State()))
      ensures Valid() && active && progress == 0 && step == 0 && ticking
    {
      active := true;
      progress := 0;
      step := 0;
      ticking := true;
    }

    /** One firing of the interval started by `Activate`. */
    method Tick()
      requires Valid() && ticking
      modifies this
      ensures State() == TickStep(old(State()))
      ensures Valid() && active
      ensures progress == Min(old(progress) + 2, 100) && old(step) <= step
      ensures ticking <==> progress < 100
    {
      TickLaw(State());
      var newProgress := progress + 2;
      if newProgress >= 25 { step := 1; }
      if newProgress >= 50 { step := 2; }
      if newProgress >= 75 { step := 3; }
      if newProgress >= 100 {
        ticking := false;
        progress := 100;
      } else {
        progress := newProgress;
      }
    }

    /** `resetSOS`; the button is only rendered once the progress reached 100. */
    method Reset()
      requires Valid() && active && progress >= 100
      modifies this
      ensures State() == ResetStep(old(State())) && State() == Initial
      ensures Valid()
    {
      active := false;
      progress := 0;
      step := 0;
    }

    /** Whether the icon of item `i` is drawn in the accent colour. */
    function Highlighted(i: int): bool
      reads this
    {
      i <= step && active
    }

    /** The text under the progress bar, `emergencySteps[emergencyStep]`. */
    function CurrentStepText(): (text: string)
      requires Valid()
      reads this
      ensures text in EmergencySteps
    {
      EmergencySteps[step]
    }

    /** The highlighted items are a prefix of the list: the first always
        while active, every item once the run has finished, and none while
        inactive. */
    lemma HighlightedPrefix(i: int, j: int)
      requires Valid() && 0 <= i <= j < |EmergencySteps|
      ensures Highlighted(j) ==> Highlighted(i)
      ensures active ==> Highlighted(0)
      ensures active && progress == 100 ==> Highlighted(j)
      ensures !active ==> !Highlighted(i)
    {
    }
  }
}
