/**
 * What both parser copies compute from the text of an implementation plan:
 * checkbox counts, the rounded completion percentage and the status cascade.
 */
module Plans {
  import opened Types
  import opened Text

  const Hourglass := "\U{23F3}"
  const CheckMark := "\U{2705}"
  const YellowCircle := "\U{1F7E1}"

  /**
   * `- [c]` at the start of `s`. Counting all boxes, `c` is `x`, `X` or a
   * space (`/- \[(x| )\]/gi` and `/- \[([ xX])\]/g` accept the same
   * characters); counting ticked boxes, only `x` or `X`.
   */
  predicate BoxStart(s: string, ticked: bool) {
    |s| >= 5 && s[0] == '-' && s[1] == ' ' && s[2] == '[' && s[4] == ']' &&
    (s[3] == 'x' || s[3] == 'X' || (!ticked && s[3] == ' '))
  }

  /**
   * The number of matches `String.match` with the `g` flag finds: the
   * leftmost match, then the next one after its end.
   */
  function CountBoxes(s: string, ticked: bool): (n: nat)
    ensures 5 * n <= |s|
    decreases |s|
  {
    if |s| < 5 then 0
    else if BoxStart(s, ticked) then 1 + CountBoxes(s[5..], ticked)
    else CountBoxes(s[1..], ticked)
  }

  /** A position that does not hold `-` starts no box. */
  lemma SkipNonDash(s: string, ticked: bool)
    requires |s| > 0 && s[0] != '-'
    ensures CountBoxes(s, ticked) == CountBoxes(s[1..], ticked)
  {
  }

  /** Every ticked box is a box: `tasksCompleted <= tasksTotal`. */
  lemma {:induction false} TickedAtMostAll(s: string)
    ensures CountBoxes(s, true) <= CountBoxes(s, false)
    decreases |s|
  {
    if |s| < 5 {
    } else if BoxStart(s, true) {
      TickedAtMostAll(s[5..]);
    } else if BoxStart(s, false) {
      // `- [ ]`: the ticked count moves over the four characters after the dash one by one.
      SkipNonDash(s[1..], true);
      assert s[1..][1..] == s[2..];
      SkipNonDash(s[2..], true);
      assert s[2..][1..] == s[3..];
      SkipNonDash(s[3..], true);
      assert s[3..][1..] == s[4..];
      SkipNonDash(s[4..], true);
      assert s[4..][1..] == s[5..];
      TickedAtMostAll(s[5..]);
    } else {
      TickedAtMostAll(s[1..]);
    }
  }

  /** A ticked box on its own is counted once as ticked and once as a box. */
  lemma OneBox(c: char)
    requires c == 'x' || c == 'X' || c == ' '
    ensures CountBoxes(['-', ' ', '[', c, ']'], false) == 1
    ensures CountBoxes(['-', ' ', '[', c, ']'], true) == (if c == ' ' then 0 else 1)
  {
    var s := ['-', ' ', '[', c, ']'];
    assert s[5..] == [];
    assert |s[1..]| < 5;
  }

  /**
   * `Math.round((c / t) * 100)` in exact arithmetic, and 0 without boxes:
   * the percentage nearest to `100 c / t`, halves rounded up.
   */
  function Percent(c: nat, t: nat): (p: nat)
    ensures t == 0 ==> p == 0
    ensures t > 0 ==> 2 * t * p <= 200 * c + t < 2 * t * (p + 1)
  {
    if t == 0 then 0 else (200 * c + t) / (2 * t)
  }

  /** A share of the boxes is a percentage. */
  lemma PercentAtMost100(c: nat, t: nat)
    requires c <= t
    ensures Percent(c, t) <= 100
  {
    if t > 0 {
      var p := Percent(c, t);
      assert 2 * t * p <= 200 * c + t <= 200 * t + t < 2 * t * 101;
      MulCancel(2 * t, p, 101);
    }
  }

  lemma MulMono(a: nat, x: nat, y: nat)
    requires x <= y
    ensures a * x <= a * y
  {
  }

  lemma MulCancel(a: nat, x: nat, y: nat)
    ensures a * x < a * y ==> x < y
  {
    if y <= x {
      MulMono(a, y, x);
    }
  }

  /** 100 % means at least 99.5 % of the boxes are ticked, so not necessarily all of them. */
  lemma PercentFull(c: nat, t: nat)
    requires c <= t && t > 0
    ensures Percent(c, t) == 100 <==> 200 * c >= 199 * t
  {
    var p := Percent(c, t);
    PercentAtMost100(c, t);
    if p == 100 {
      assert 200 * t <= 200 * c + t;
    } else {
      assert p <= 99;
      MulMono(2 * t, p + 1, 100);
      assert 200 * c + t < 200 * t;
    }
  }

  /** 0 % means no boxes, or fewer than half a percent of them ticked. */
  lemma PercentZero(c: nat, t: nat)
    ensures Percent(c, t) == 0 <==> t == 0 || 200 * c < t
  {
    if t > 0 && Percent(c, t) > 0 {
      MulMono(2 * t, 1, Percent(c, t));
    }
  }

  // ---------------------------------------------------------------------------
  // Status

  /** The "planned" word of each copy: `Planned` as written in the plugin, any case in the perseon copy. */
  predicate PlannedWord(v: Variant, content: string) {
    match v
    case Plugin => Contains(content, "Planned")
    case Perseon => Contains(Lower(content), "planned")
  }

  /** The status cascade on the percentage, shared by both copies. */
  function BaseStatus(v: Variant, content: string, pct: nat): (s: Status)
    ensures s == Completed ==> pct == 100
    ensures s == InProgress ==> pct > 0
    ensures s == Planned || s == NotStarted ==> pct == 0
    ensures pct == 0 ==> (s == Planned <==> Contains(content, Hourglass) || PlannedWord(v, content))
    ensures pct == 100 ==> s == Completed
    ensures 0 < pct < 100 ==> s == InProgress
  {
    if pct == 100 then Completed
    else if pct > 0 then InProgress
    else if Contains(content, Hourglass) || PlannedWord(v, content) then Planned
    else NotStarted
  }

  /**
   * The status a plan gets. The plugin copy then applies its glyph override:
   * a check mark with more than 80 % forces completed, otherwise a yellow
   * circle forces in progress, otherwise an hourglass forces planned.
   */
  function PlanStatus(v: Variant, content: string, pct: nat): (s: Status)
    ensures v == Perseon ==> s == BaseStatus(v, content, pct)
    ensures v == Plugin ==> s == (if Contains(content, CheckMark) && pct > 80 then Completed
                                 else if Contains(content, YellowCircle) then InProgress
                                 else if Contains(content, Hourglass) then Planned
                                 else BaseStatus(v, content, pct))
  {
    var base := BaseStatus(v, content, pct);
    match v
    case Perseon => base
    case Plugin =>
      if Contains(content, CheckMark) && pct > 80 then Completed
      else if Contains(content, YellowCircle) then InProgress
      else if Contains(content, Hourglass) then Planned
      else base
  }

  /** Completed needs 100 % in the perseon copy, and more than 80 % with a check mark in the plugin copy. */
  lemma CompletedNeedsProgress(v: Variant, content: string, pct: nat)
    requires PlanStatus(v, content, pct) == Completed
    ensures pct > 80
    ensures v == Perseon ==> pct == 100
    ensures pct != 100 ==> Contains(content, CheckMark)
  {
  }

  /** A plan without boxes is never completed, in either copy. */
  lemma NoBoxesNotCompleted(v: Variant, content: string)
    requires CountBoxes(content, false) == 0
    ensures PlanStatus(v, content, Percent(CountBoxes(content, true), CountBoxes(content, false))) != Completed
  {
  }

  /** In the plugin copy an hourglass wins over the percentage unless a glyph ranked above it is present. */
  lemma HourglassOverrides(content: string, pct: nat)
    requires Contains(content, Hourglass) && !Contains(content, YellowCircle)
    requires !(Contains(content, CheckMark) && pct > 80)
    ensures PlanStatus(Plugin, content, pct) == Planned
  {
  }

  /** Everything a plan parser reads from a plan besides its sub-feature list. */
  datatype PlanFacts = PlanFacts(
    status: Status,
    completionPercentage: nat,
    tasksTotal: nat,
    tasksCompleted: nat,
    effortEstimate: Option<string>,
    targetDate: Option<string>,
    priority: Option<Priority>)

  /** The counts, percentage and status of a plan's text; effort, target and priority are filled in by each parser. */
  function Progress(v: Variant, content: string): (f: PlanFacts)
    ensures f.tasksCompleted <= f.tasksTotal
    ensures f.completionPercentage <= 100
    ensures f.tasksTotal == 0 ==> f.completionPercentage == 0 && f.status != Completed
    ensures f.status == Completed ==> f.completionPercentage > 80
    ensures f.tasksTotal == CountBoxes(content, false) && f.tasksCompleted == CountBoxes(content, true)
    ensures f.completionPercentage == Percent(f.tasksCompleted, f.tasksTotal)
    ensures f.status == PlanStatus(v, content, f.completionPercentage)
  {
    var total := CountBoxes(content, false);
    var done := CountBoxes(content, true);
    TickedAtMostAll(content);
    PercentAtMost100(done, total);
    var pct := Percent(done, total);
    PlanFacts(PlanStatus(v, content, pct), pct, total, done, None, None, None)
  }

  /** The catch branch of both parsers: a plan that cannot be read. */
  const Unread := PlanFacts(NotStarted, 0, 0, 0, None, None, None)
}
