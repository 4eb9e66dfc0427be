/**
 * The working severity calculator of the symptom-analysis section
 * (src/sections/SymptomAnalysisSection.tsx): a list of selected symptoms
 * toggled on and off, two drop-downs (duration and self-reported severity),
 * a score computed from the three, and the band the score falls into.
 */
module Severity {
  import opened Wrappers
  import opened Common

  // ---------------------------------------------------------------------------
  // The band table
  // ---------------------------------------------------------------------------

  /** One row of `severityLevels`. */
  datatype Level = Level(scoreRange: string, labelText: string, color: string, textColor: string, desc: string)

  const SeverityLevels: seq<Level> := [
    Level("0-30", "Mild", "bg-green-500", "text-green-400", "Self-care may be sufficient"),
    Level("31-60", "Moderate", "bg-yellow-500", "text-yellow-400", "Monitor closely, seek care if worsens"),
    Level("61-80", "Serious", "bg-orange-500", "text-orange-400", "Medical attention advised"),
    Level("81-100", "Critical", "bg-red-500", "text-red-400", "Immediate medical attention required")
  ]

  // ---------------------------------------------------------------------------
  // Toggling a symptom
  // ---------------------------------------------------------------------------

  /** `prev.filter(s => s !== symptom)` */
  function RemoveAll(l: seq<string>, symptom: string): (r: seq<string>)
    ensures forall x :: x in r <==> x in l && x != symptom
  {
    if l == [] then []
    else (if l[0] == symptom then [] else [l[0]]) + RemoveAll(l[1..], symptom)
  }

  /** The updater passed by `toggleSymptom`: remove every occurrence of a
      selected symptom, or append an unselected one. Afterwards the symptom
      is selected exactly when it was not before, and every other symptom
      keeps its selection. */
  function Toggle(selected: seq<string>, symptom: string): (r: seq<string>)
    ensures symptom in r <==> symptom !in selected
    ensures forall x :: x != symptom ==> (x in r <==> x in selected)
  {
    if symptom in selected then RemoveAll(selected, symptom) else selected + [symptom]
  }

  /** Removal keeps the order of what remains: it distributes over
      concatenation and leaves a list without the symptom as it is. */
  lemma {:induction false} RemoveAllConcat(a: seq<string>, b: seq<string>, symptom: string)
    ensures RemoveAll(a + b, symptom) == RemoveAll(a, symptom) + RemoveAll(b, symptom)
  {
    if a == [] {
      assert a + b == b;
    } else {
      assert (a + b)[0] == a[0] && (a + b)[1..] == a[1..] + b;
      RemoveAllConcat(a[1..], b, symptom);
    }
  }

  lemma {:induction false} RemoveAllAbsent(l: seq<string>, symptom: string)
    requires symptom !in l
    ensures RemoveAll(l, symptom) == l
  {
    if l != [] {
      RemoveAllAbsent(l[1..], symptom);
      assert l == [l[0]] + l[1..];
    }
  }

  /** Removal drops every occurrence of the symptom and keeps every other
      entry as often as it occurred. */
  lemma {:induction false} RemoveAllCounts(l: seq<string>, symptom: string, x: string)
    ensures multiset(RemoveAll(l, symptom))[x] == if x == symptom then 0 else multiset(l)[x]
  {
    if l != [] {
      RemoveAllCounts(l[1..], symptom, x);
      assert l == [l[0]] + l[1..];
    }
  }

  /** Toggling an unselected symptom twice restores the selection. */
  lemma ToggleTwice(selected: seq<string>, symptom: string)
    requires symptom !in selected
    ensures Toggle(Toggle(selected, symptom), symptom) == selected
  {
    RemoveAllConcat(selected, [symptom], symptom);
    RemoveAllAbsent(selected, symptom);
    assert RemoveAll([symptom], symptom) == [];
  }

  /** A duplicate-free selection stays duplicate-free. */
  lemma {:induction false} RemoveAllNoDup(l: seq<string>, symptom: string)
    requires NoDup(l)
    ensures NoDup(RemoveAll(l, symptom))
  {
    if l != [] {
      assert NoDup(l[1..]) by {
        forall i, j | 0 <= i < j < |l[1..]| ensures l[1..][i] != l[1..][j] {
          assert l[1..][i] == l[i + 1] && l[1..][j] == l[j + 1];
        }
      }
      RemoveAllNoDup(l[1..], symptom);
      assert l[0] !in l[1..] by {
        forall k | 0 <= k < |l[1..]| ensures l[1..][k] != l[0] { assert l[1..][k] == l[k + 1]; }
      }
    }
  }

  lemma ToggleNoDup(selected: seq<string>, symptom: string)
    requires NoDup(selected)
    ensures NoDup(Toggle(selected, symptom))
  {
    if symptom in selected {
      RemoveAllNoDup(selected, symptom);
    }
  }

  // ---------------------------------------------------------------------------
  // The score
  // ---------------------------------------------------------------------------

  /** Bonus for the duration drop-down (`'hours'`, `'days'`, `'weeks'`). */
  function DurationBonus(duration: string): nat {
    if duration == "hours" then 10
    else if duration == "days" then 20
    else if duration == "weeks" then 30
    else 0
  }

  /** Bonus for the self-reported severity drop-down. */
  function SelfReportBonus(severity: string): nat {
    if severity == "mild" then 5
    else if severity == "moderate" then 25
    else if severity == "severe" then 45
    else 0
  }

  /** Position of a drop-down value in its option list (`''` and unknown values first). */
  function DurationRank(duration: string): nat {
    if duration == "hours" then 1
    else if duration == "days" then 2
    else if duration == "weeks" then 3
    else 0
  }

  function SelfReportRank(severity: string): nat {
    if severity == "mild" then 1
    else if severity == "moderate" then 2
    else if severity == "severe" then 3
    else 0
  }

  /** `Math.min(8 * n + durationBonus + severityBonus, 100)`: a score in
      0..100, at least 8 as soon as one symptom is selected. */
  function SeverityScore(symptomCount: nat, duration: string, severity: string): (score: int)
    ensures 0 <= score <= 100
    ensures symptomCount > 0 ==> score >= 8
  {
    Min(symptomCount * 8 + DurationBonus(duration) + SelfReportBonus(severity), 100)
  }

  /** The body of `calculateSeverity` up to the state write: a local score
      built up step by step and capped at 100. */
  method ComputeScore(symptomCount: nat, duration: string, severity: string) returns (score: int)
    ensures score == SeverityScore(symptomCount, duration, severity)
    ensures 0 <= score <= 100
    ensures symptomCount > 0 ==> score >= 8
  {
    score := 0;
    score := score + symptomCount * 8;
    if duration == "hours" { score := score + 10; }
    if duration == "days" { score := score + 20; }
    if duration == "weeks" { score := score + 30; }
    if severity == "mild" { score := score + 5; }
    if severity == "moderate" { score := score + 25; }
    if severity == "severe" { score := score + 45; }
    score := Min(score, 100);
  }

  /** The score never decreases when a symptom is added, the duration gets
      longer or the self-reported severity gets worse. */
  lemma ScoreMonotone(n1: nat, n2: nat, d1: string, d2: string, s1: string, s2: string)
    requires n1 <= n2 && DurationRank(d1) <= DurationRank(d2) && SelfReportRank(s1) <= SelfReportRank(s2)
    ensures SeverityScore(n1, d1, s1) <= SeverityScore(n2, d2, s2)
  {
    assert DurationBonus(d1) <= DurationBonus(d2);
    assert SelfReportBonus(s1) <= SelfReportBonus(s2);
  }

  /** Thirteen symptoms alone, or four with the worst duration and severity
      answers, reach the cap. */
  lemma ScoreSaturates(n: nat, duration: string, severity: string)
    requires n >= 13 || (n >= 4 && duration == "weeks" && severity == "severe")
    ensures SeverityScore(n, duration, severity) == 100
  {
  }

  // ---------------------------------------------------------------------------
  // Bands
  // ---------------------------------------------------------------------------

  /** The index `getSeverityInfo` picks in `severityLevels`. */
  function BandIndex(score: int): (k: nat)
    ensures k < |SeverityLevels|
  {
    if score <= 30 then 0
    else if score <= 60 then 1
    else if score <= 80 then 2
    else 3
  }

  /** `getSeverityInfo(score)`: a row of the table, and for every score the
      calculator can produce, the row whose `range` text contains the score. */
  function SeverityInfo(score: int): (level: Level)
    ensures level in SeverityLevels
    ensures 0 <= score <= 100 ==>
      RangeBounds(level.scoreRange).0 <= score <= RangeBounds(level.scoreRange).1
  {
    BoundsTable(BandIndex(score));
    SeverityLevels[BandIndex(score)]
  }

  /** Value of a string of decimal digits, read left to right onto `acc`. */
  function DigitsValue(s: string, acc: int): int {
    if s == [] then acc else DigitsValue(s[1..], acc * 10 + (s[0] as int - '0' as int))
  }

  /** For every score the calculator can produce, the band picked is the one
      whose advertised `range` text contains the score. */
  lemma BandMatchesTable(score: int)
    requires 0 <= score <= 100
    ensures var k := BandIndex(score);
      Bounds(k).0 <= score <= Bounds(k).1
  {
    BoundsTable(BandIndex(score));
  }

  /** Bounds of band `k` as its `range` text gives them. */
  function TableBounds(k: nat): (int, int) {
    if k == 0 then (0, 30) else if k == 1 then (31, 60) else if k == 2 then (61, 80) else (81, 100)
  }

  /** The bounds of the four bands as their `range` texts give them. */
  lemma BoundsTable(k: nat)
    requires k < |SeverityLevels|
    ensures Bounds(k) == TableBounds(k)
  {
    if k == 0 {
      BandText(0, "0", "30");
      assert DigitsValue("0", 0) == 0 && DigitsValue("30", 0) == 30;
    } else if k == 1 {
      BandText(1, "31", "60");
      assert DigitsValue("31", 0) == 31 && DigitsValue("60", 0) == 60;
    } else if k == 2 {
      BandText(2, "61", "80");
      assert DigitsValue("61", 0) == 61 && DigitsValue("80", 0) == 80;
    } else {
      BandText(3, "81", "100");
      assert DigitsValue("81", 0) == 81 && DigitsValue("100", 0) == 100;
    }
  }

  lemma BandText(k: nat, lo: string, hi: string)
    requires k < |SeverityLevels| && SeverityLevels[k].scoreRange == lo + "-" + hi && '-' !in lo
    ensures Bounds(k) == (DigitsValue(lo, 0), DigitsValue(hi, 0))
  {
    RangeText(lo, hi);
  }

  lemma RangeText(lo: string, hi: string)
    requires '-' !in lo
    ensures RangeBounds(lo + "-" + hi) == (DigitsValue(lo, 0), DigitsValue(hi, 0))
  {
    var r := lo + "-" + hi;
    DashAfter(lo, hi);
    assert r[..|lo|] == lo && r[|lo| + 1..] == hi;
  }

  lemma {:induction false} DashAfter(lo: string, hi: string)
    requires '-' !in lo
    ensures DashAt(lo + "-" + hi) == |lo|
  {
    if lo != [] {
      assert (lo + "-" + hi)[1..] == lo[1..] + "-" + hi;
      DashAfter(lo[1..], hi);
    }
  }

  /** The numeric bounds of band `k`, read from its `range` text. */
  function Bounds(k: nat): (int, int)
    requires k < |SeverityLevels|
  {
    RangeBounds(SeverityLevels[k].scoreRange)
  }

  /** The two numbers of a `"lo-hi"` text. */
  function RangeBounds(r: string): (int, int) {
    var dash := DashAt(r);
    if dash < |r| then (DigitsValue(r[..dash], 0), DigitsValue(r[dash + 1..], 0))
    else (DigitsValue(r, 0), DigitsValue(r, 0))
  }

  /** Index of the first `-` in `r`, or `|r|` when there is none. */
  function DashAt(r: string): (i: nat)
    ensures i <= |r|
    ensures i < |r| ==> r[i] == '-'
  {
    if r == [] || r[0] == '-' then 0 else 1 + DashAt(r[1..])
  }

  /** The band index never decreases as the score grows. */
  lemma BandMonotone(a: int, b: int)
    requires a <= b
    ensures BandIndex(a) <= BandIndex(b)
  {
  }

  // ---------------------------------------------------------------------------
  // The component's calculator state
  // ---------------------------------------------------------------------------

  class Calculator {
    var selected: seq<string>
    var duration: string
    var severity: string
    var score: Option<int>

    /** `useState([])`, `useState('')`, `useState('')`, `useState(null)` */
    constructor ()
      ensures selected == [] && duration == "" && severity == "" && score == None
    {
      selected, duration, severity, score := [], "", "", None;
    }

    /** `toggleSymptom(symptom)`: toggles the symptom and clears the score. */
    method ToggleSymptom(symptom: string)
      modifies this
      ensures selected == Toggle(old(selected), symptom)
      ensures symptom in selected <==> symptom !in old(selected)
      ensures forall x :: x != symptom ==> (x in selected <==> x in old(selected))
      ensures NoDup(old(selected)) ==> NoDup(selected)
      ensures score == None
      ensures duration == old(duration) && severity == old(severity)
    {
      if NoDup(selected) { ToggleNoDup(selected, symptom); }
      selected := Toggle(selected, symptom);
      score := None;
    }

    /** The duration drop-down's `onChange`. */
    method SetDuration(d: string)
      modifies this`duration
      ensures duration == d
    {
      duration := d;
    }

    /** The self-reported severity drop-down's `onChange`. */
    method SetSeverity(s: string)
      modifies this`severity
      ensures severity == s
    {
      severity := s;
    }

    /** `calculateSeverity()`: stores the score of the current answers. */
    method CalculateSeverity()
      modifies this`score
      ensures score == Some(SeverityScore(|selected|, duration, severity))
      ensures 0 <= score.value <= 100
    {
      var s := ComputeScore(|selected|, duration, severity);
      score := Some(s);
    }
  }
}
